/**
 * The rewritten colony, class `Colony` of colony.py: a structure of arrays
 * over ant slots (loaded flag, current age, age of death, path history,
 * last direction).  Each NumPy array is a sequence field that the methods
 * reassign with masked bulk updates; the random draws of NumPy are inputs.
 */
module Colony {
  import opened Exits
  import opened MazeSpec
  import opened Pheromone
  import opened Foraging
  import Maze

  /** The values constants.py supplies (constants.py is not part of this model). */
  datatype Constants = Constants(codes: DirCodes, maxAge: nat, epsilon: real, alpha: real, beta: real)

  /** The direction of an ant that has not moved yet (colony.py:23, colony.py:129). */
  const NO_DIRECTION: int := -1

  /** `u` drawn from [0.75 * span, span] and truncated lies in [(3 * span) / 4, span]. */
  lemma FloorBounds(u: real, span: nat)
    requires 0.75 * (span as real) <= u <= span as real
    ensures (3 * span) / 4 <= u.Floor <= span
  {
    var q := (3 * span) / 4;
    assert 4 * q <= 3 * span;
    assert q as real <= 0.75 * (span as real);
  }

  // ---------------------------------------------------------------------
  // One ant's tick

  /** The following write (colony.py:115-122), made after ageing: the new entry is the step from the previous one. */
  function FollowedAt(a: Ant, x: Scent): (b: Ant)
    requires 1 <= a.age < |a.path|
    ensures b == a.(path := a.path[a.age := FollowStep(a.path[a.age - 1], x)])
  {
    a.(path := a.path[a.age := FollowStep(a.path[a.age - 1], x)])
  }

  /** Whether an ant explores rather than follows (colony.py:68-69): its draw is at most EPSILON or it smells nothing. */
  predicate Explores(x: Scent, draw: real, k: Constants) {
    draw <= k.epsilon || Strongest(x) == 0.0
  }

  /**
   * One ant through `explore` (colony.py:45-139): an unloaded ant explores
   * (first accepted draw) or follows the strongest scent, ages, dies at its
   * lifetime and is loaded if it stands on the food.  `x` and `cell` are
   * what it smells and the maze cell under it before moving.
   */
  function ExploreAnt(a: Ant, x: Scent, cell: bv8, draw: real, dirs: seq<int>, food: Pos, nest: Pos, k: Constants): Ant
    requires 0 <= a.age && a.age + 1 < |a.path|
  {
    var a1 := if !a.loaded && Explores(x, draw, k) then Explored(a, k.codes, cell, dirs) else a;
    var a2 := Aged(a1);
    var a3 := if !a.loaded && !Explores(x, draw, k) then FollowedAt(a2, x) else a2;
    PickedUp(Respawned(a3, nest, NO_DIRECTION), food)
  }

  /** One ant through `update` before the deposit (colony.py:142-143): return to the nest, then explore. */
  function TickAnt(a: Ant, cells: Grid<bv8>, ph: Grid<real>, n0: nat, n1: nat, draw: real, dirs: seq<int>,
                   food: Pos, nest: Pos, k: Constants): Ant
    requires AntOk(a, k.maxAge, nest, n0, n1) && Layout(cells, ph, n0, n1)
  {
    var b := Returned(a, nest);
    ReturnedWalksBack(a, k.maxAge, nest, n0, n1);
    ExploreAnt(b, Smell(cells, ph, n0, n1, Here(b)), Get(cells, Here(b)), draw, dirs, food, nest, k)
  }

  /**
   * The slot invariant survives an explore tick in a maze without exits off
   * the grid, as long as the food is not on the nest: every written position
   * is on the grid, index 0 stays the nest and the age stays below the
   * lifetime.
   */
  lemma ExploreAntKeepsOk(a: Ant, cells: Grid<bv8>, ph: Grid<real>, n0: nat, n1: nat, draw: real, dirs: seq<int>,
                          food: Pos, nest: Pos, k: Constants)
    requires AntOk(a, k.maxAge, nest, n0, n1) && ValidCodes(k.codes)
    requires Layout(cells, ph, n0, n1) && NoOffGridExits(cells, n0, n1) && food != nest
    ensures AntOk(ExploreAnt(a, Smell(cells, ph, n0, n1, Here(a)), Get(cells, Here(a)), draw, dirs, food, nest, k),
                  k.maxAge, nest, n0, n1)
  {
    var x, cell := Smell(cells, ph, n0, n1, Here(a)), Get(cells, Here(a));
    var a1 := if !a.loaded && Explores(x, draw, k) then Explored(a, k.codes, cell, dirs) else a;
    if !a.loaded && Explores(x, draw, k) {
      match FirstAccepted(Here(a), a.dir, k.codes, cell, dirs)
      case None =>
      case Some(d) =>
        AcceptedMoveStaysOnGrid(cells, n0, n1, Here(a), d, a.dir, k.codes);
        OnGridUpdate(a.path, n0, n1, a.age + 1, ExploreMove(Here(a), d, k.codes, cell));
    }
    assert OnGrid(a1.path, n0, n1) && a1.path[0] == nest && a1.path[a.age] == Here(a);
    var a2 := Aged(a1);
    var a3 := if !a.loaded && !Explores(x, draw, k) then FollowedAt(a2, x) else a2;
    if !a.loaded && !Explores(x, draw, k) {
      FollowStaysOnGrid(cells, ph, n0, n1, Here(a));
      OnGridUpdate(a2.path, n0, n1, a2.age, FollowStep(Here(a), x));
    }
    assert OnGrid(a3.path, n0, n1) && a3.path[0] == nest;
    var a4 := Respawned(a3, nest, NO_DIRECTION);
    if a3.age == a3.life {
      OnGridUpdate(a3.path, n0, n1, 0, nest);
    }
    assert OnGrid(a4.path, n0, n1) && a4.path[0] == nest && 0 <= a4.age < a4.life;
  }

  /** A loaded ant is left exactly as it was by `explore`. */
  lemma ExploreAntLeavesLoaded(a: Ant, x: Scent, cell: bv8, draw: real, dirs: seq<int>, food: Pos, nest: Pos, k: Constants, n0: nat, n1: nat)
    requires AntOk(a, k.maxAge, nest, n0, n1) && a.loaded
    ensures ExploreAnt(a, x, cell, draw, dirs, food, nest, k) == a
  {
  }

  /**
   * Where an unloaded ant ends its explore tick: at the nest with age 0 and
   * no direction if it reached its lifetime; otherwise one step older, one
   * step through an exit along its first accepted draw if it explored (or
   * on the stale next entry if no draw was accepted), or on the following
   * step with its direction unchanged.  It is loaded exactly when it stands
   * on the food.
   */
  lemma ExploreAntMoves(a: Ant, cells: Grid<bv8>, ph: Grid<real>, n0: nat, n1: nat, draw: real, dirs: seq<int>,
                        food: Pos, nest: Pos, k: Constants)
    requires AntOk(a, k.maxAge, nest, n0, n1) && ValidCodes(k.codes) && !a.loaded
    requires Layout(cells, ph, n0, n1) && NoOffGridExits(cells, n0, n1)
    ensures var x, cell := Smell(cells, ph, n0, n1, Here(a)), Get(cells, Here(a));
      var b := ExploreAnt(a, x, cell, draw, dirs, food, nest, k);
      && (b.loaded <==> Here(b) == food)
      && (a.age + 1 == a.life ==> b.age == 0 && Here(b) == nest && b.dir == NO_DIRECTION)
      && (a.age + 1 < a.life ==>
            && b.age == a.age + 1 && b.path[0] == a.path[0]
            && (!Explores(x, draw, k) ==> Here(b) == FollowStep(Here(a), x) && b.dir == a.dir)
            && (Explores(x, draw, k) ==>
                  match FirstAccepted(Here(a), a.dir, k.codes, cell, dirs)
                  case None => Here(b) == a.path[a.age + 1] && b.dir == a.dir
                  case Some(d) =>
                    && (exists t :: d == Code(k.codes, t))
                    && b.dir == d && HasExit(cell, SideOf(k.codes, d)) && Here(b) == Move(Here(a), SideOf(k.codes, d))
                    && (ExitCount(cell) == 1 || d + a.dir != 3)))
  {
    var x, cell := Smell(cells, ph, n0, n1, Here(a)), Get(cells, Here(a));
    if Explores(x, draw, k) {
      match FirstAccepted(Here(a), a.dir, k.codes, cell, dirs)
      case None =>
      case Some(d) =>
        AcceptedMoveStaysOnGrid(cells, n0, n1, Here(a), d, a.dir, k.codes);
    }
  }

  // ---------------------------------------------------------------------
  // The deposit of `update`

  /** `ALPHA * max + (1 - ALPHA) * mean` of the masked scents (colony.py:158-168). */
  function Reinforcement(x: Scent, alpha: real): real {
    alpha * Strongest(x) + (1.0 - alpha) * (0.25 * (x.north + x.east + x.west + x.south))
  }

  /**
   * On non-negative scents the rewrite deposits what the original `mark`
   * deposits (pheromone.py:27), and for `alpha` in [0, 1] the value lies
   * between 0 and the strongest scent.
   */
  lemma ReinforcementAgreesWithMark(x: Scent, alpha: real)
    requires x.north >= 0.0 && x.east >= 0.0 && x.west >= 0.0 && x.south >= 0.0
    ensures Reinforcement(x, alpha) == Blend(alpha, x.west, x.east, x.south, x.north)
    ensures 0.0 <= alpha <= 1.0 ==> 0.0 <= Reinforcement(x, alpha) <= Strongest(x)
  {
    assert Strongest(x) == Max(Max(x.west, x.east), Max(x.south, x.north));
    var sum := x.north + x.east + x.west + x.south;
    assert sum == x.west + x.east + x.south + x.north;
    assert (1.0 - alpha) * 0.25 * sum == (1.0 - alpha) * (0.25 * sum);
    assert alpha * Strongest(x) == alpha * Max(Max(x.west, x.east), Max(x.south, x.north));
    if 0.0 <= alpha <= 1.0 {
      BlendWithin(alpha, x.west, x.east, x.south, x.north);
    }
  }

  /**
   * The copy of the field with every occupied cell reinforced
   * (colony.py:165-168): the ants are written one after the other, each
   * value computed from the original field `ph`.
   */
  function Reinforced(ph: Grid<real>, cells: Grid<bv8>, n0: nat, n1: nat, pos: seq<Pos>, alpha: real): (h: Grid<real>)
    requires Layout(cells, ph, n0, n1) && forall t :: 0 <= t < |pos| ==> InBounds(pos[t], n0, n1)
    ensures IsGrid(h, n0 + 2, n1 + 2)
    decreases |pos|
  {
    if pos == [] then ph
    else
      var q := pos[|pos| - 1];
      Set(Reinforced(ph, cells, n0, n1, pos[..|pos| - 1], alpha), Inner(q), Reinforcement(Smell(cells, ph, n0, n1, q), alpha))
  }

  /**
   * The order of the writes does not matter: a cell occupied by some ant
   * holds the reinforcement computed from the original field, every other
   * cell keeps its original value.
   */
  lemma {:induction false} ReinforcedAt(ph: Grid<real>, cells: Grid<bv8>, n0: nat, n1: nat, pos: seq<Pos>, alpha: real, p: Pos)
    requires Layout(cells, ph, n0, n1) && forall t :: 0 <= t < |pos| ==> InBounds(pos[t], n0, n1)
    requires InBounds(p, n0 + 2, n1 + 2)
    ensures forall t :: 0 <= t < |pos| && Inner(pos[t]) == p ==>
      Get(Reinforced(ph, cells, n0, n1, pos, alpha), p) == Reinforcement(Smell(cells, ph, n0, n1, pos[t]), alpha)
    ensures (forall t :: 0 <= t < |pos| ==> Inner(pos[t]) != p) ==>
      Get(Reinforced(ph, cells, n0, n1, pos, alpha), p) == Get(ph, p)
    decreases |pos|
  {
    if pos != [] {
      var front, q := pos[..|pos| - 1], pos[|pos| - 1];
      var r := Reinforced(ph, cells, n0, n1, front, alpha);
      var v := Reinforcement(Smell(cells, ph, n0, n1, q), alpha);
      assert Reinforced(ph, cells, n0, n1, pos, alpha) == Set(r, Inner(q), v);
      assert Get(Set(r, Inner(q), v), p) == if p == Inner(q) then v else Get(r, p);
      ReinforcedAt(ph, cells, n0, n1, front, alpha, p);
      assert forall t :: 0 <= t < |front| ==> front[t] == pos[t];
    }
  }

  /** Every masked scent read from a field inside [0, 1] lies inside [0, 1]. */
  lemma SmellInUnit(cells: Grid<bv8>, ph: Grid<real>, n0: nat, n1: nat, p: Pos)
    requires Layout(cells, ph, n0, n1) && InBounds(p, n0, n1) && InUnit(ph)
    ensures forall s :: 0.0 <= Level(Smell(cells, ph, n0, n1, p), s) <= 1.0
  {
    forall s ensures 0.0 <= Level(Smell(cells, ph, n0, n1, p), s) <= 1.0 {
      var b := Beside(p, s);
      assert 0 <= b.r < |ph| && 0 <= b.c < |ph[b.r]|;
    }
  }

  /** With `alpha` in [0, 1], reinforcing a field inside [0, 1] keeps it inside [0, 1]. */
  lemma ReinforcedKeepsUnit(ph: Grid<real>, cells: Grid<bv8>, n0: nat, n1: nat, pos: seq<Pos>, alpha: real)
    requires Layout(cells, ph, n0, n1) && forall t :: 0 <= t < |pos| ==> InBounds(pos[t], n0, n1)
    requires 0.0 <= alpha <= 1.0 && InUnit(ph)
    ensures InUnit(Reinforced(ph, cells, n0, n1, pos, alpha))
  {
    var h := Reinforced(ph, cells, n0, n1, pos, alpha);
    forall i, j | 0 <= i < |h| && 0 <= j < |h[i]| ensures 0.0 <= h[i][j] <= 1.0 {
      var p := Pos(i, j);
      ReinforcedAt(ph, cells, n0, n1, pos, alpha, p);
      if t :| 0 <= t < |pos| && Inner(pos[t]) == p {
        var x := Smell(cells, ph, n0, n1, pos[t]);
        SmellInUnit(cells, ph, n0, n1, pos[t]);
        assert Level(x, North) == x.north && Level(x, East) == x.east && Level(x, West) == x.west && Level(x, South) == x.south;
        ReinforcementAgreesWithMark(x, alpha);
      }
    }
  }

  /** Every slot's column of `rounds`. */
  function Columns(rounds: seq<seq<int>>, n: nat): (cols: seq<seq<int>>)
    requires forall j :: 0 <= j < |rounds| ==> |rounds[j]| == n
    ensures |cols| == n && forall i :: 0 <= i < n ==> cols[i] == Column(rounds, i)
  {
    seq(n, i requires 0 <= i < n => Column(rounds, i))
  }

  /** Each slot's draws with its draw of one more round appended. */
  function Appended(cols: seq<seq<int>>, dirs: seq<int>): (next: seq<seq<int>>)
    requires |cols| == |dirs|
    ensures |next| == |cols| && forall i :: 0 <= i < |cols| ==> next[i] == cols[i] + [dirs[i]]
  {
    seq(|cols|, i requires 0 <= i < |cols| => cols[i] + [dirs[i]])
  }

  /** Taking one more round appends that round's draw to every column. */
  lemma ColumnsSnoc(rounds: seq<seq<int>>, j: nat, n: nat)
    requires j < |rounds| && forall t :: 0 <= t < |rounds| ==> |rounds[t]| == n
    ensures Columns(rounds[..j + 1], n) == Appended(Columns(rounds[..j], n), rounds[j])
  {
    forall i | 0 <= i < n ensures Column(rounds[..j + 1], i) == Column(rounds[..j], i) + [rounds[j][i]] {
    }
  }

  // ---------------------------------------------------------------------
  // The colony

  class Colony {
    const numAnts: nat
    const posNest: Pos
    const k: Constants
    var isLoaded: seq<bool>
    var curAge: seq<int>
    var maxAge: seq<int>
    var path: seq<seq<Pos>>
    var direction: seq<int>
    var foodCollected: nat

    ghost predicate Sized()
      reads this
    {
      |isLoaded| == numAnts && |curAge| == numAnts && |maxAge| == numAnts && |path| == numAnts && |direction| == numAnts
    }

    /** Slot `i` of the arrays, as one ant. */
    function Slot(i: int): Ant
      reads this
      requires Sized() && 0 <= i < numAnts
    {
      Ant(isLoaded[i], curAge[i], maxAge[i], path[i], direction[i])
    }

    /** All slots, as ants. */
    function Ants(): (ants: seq<Ant>)
      reads this
      requires Sized()
      ensures |ants| == numAnts && forall i :: 0 <= i < numAnts ==> ants[i] == Slot(i)
    {
      var l, a, m, p, d := isLoaded, curAge, maxAge, path, direction;
      seq(numAnts, i requires 0 <= i < numAnts => Ant(l[i], a[i], m[i], p[i], d[i]))
    }

    /** Every ant's current age indexes its path. */
    ghost predicate Placed()
      reads this
    {
      Sized() && forall i :: 0 <= i < numAnts ==> 0 <= curAge[i] < |path[i]|
    }

    /** Every slot keeps the slot invariant for an n0 x n1 maze. */
    ghost predicate Valid(n0: nat, n1: nat)
      reads this
    {
      Placed() && ValidCodes(k.codes) && forall i :: 0 <= i < numAnts ==> AntOk(Slot(i), k.maxAge, posNest, n0, n1)
    }

    /**
     * colony.py:9-23: every ant is unloaded, of age 0, with no direction and
     * a path holding the nest at index 0; its age of death is its draw from
     * [0.75 * MAX_AGE, MAX_AGE] truncated.  With MAX_AGE >= 2 the slot
     * invariant holds for any maze containing the nest.
     */
    constructor (numAnts: nat, posNest: Pos, k: Constants, lifeDraws: seq<real>)
      requires |lifeDraws| == numAnts
      requires forall i :: 0 <= i < numAnts ==> 0.75 * (k.maxAge as real) <= lifeDraws[i] <= k.maxAge as real
      ensures this.numAnts == numAnts && this.posNest == posNest && this.k == k && Sized() && foodCollected == 0
      ensures forall i :: 0 <= i < numAnts ==>
        Slot(i) == Ant(false, 0, lifeDraws[i].Floor, StartPath(posNest, k.maxAge), NO_DIRECTION)
      ensures forall i :: 0 <= i < numAnts ==> (3 * k.maxAge) / 4 <= maxAge[i] <= k.maxAge
      ensures k.maxAge >= 2 && ValidCodes(k.codes) ==>
        forall n0: nat, n1: nat :: InBounds(posNest, n0, n1) ==> Valid(n0, n1)
    {
      this.numAnts := numAnts;
      this.posNest := posNest;
      this.k := k;
      isLoaded := seq(numAnts, _ => false);
      curAge := seq(numAnts, _ => 0);
      maxAge := seq(numAnts, i requires 0 <= i < numAnts => lifeDraws[i].Floor);
      path := seq(numAnts, _ => StartPath(posNest, k.maxAge));
      direction := seq(numAnts, _ => NO_DIRECTION);
      foodCollected := 0;
      new;
      forall i | 0 <= i < numAnts ensures (3 * k.maxAge) / 4 <= maxAge[i] <= k.maxAge {
        FloorBounds(lifeDraws[i], k.maxAge);
      }
      if k.maxAge >= 2 && ValidCodes(k.codes) {
        forall n0: nat, n1: nat | InBounds(posNest, n0, n1) ensures Valid(n0, n1) {
          assert OnGrid(StartPath(posNest, k.maxAge), n0, n1);
          assert forall i :: 0 <= i < numAnts ==> 0 <= curAge[i] < |path[i]|;
        }
      }
    }

    /** pos_ants (colony.py:25-27): each ant's position at its current age. */
    function PosAnts(): (pos: seq<Pos>)
      reads this
      requires Placed()
      ensures |pos| == numAnts && forall i :: 0 <= i < numAnts ==> pos[i] == Here(Slot(i))
    {
      var ages, paths := curAge, path;
      seq(numAnts, i requires 0 <= i < numAnts => paths[i][ages[i]])
    }

    /** pose_ants (colony.py:29-32): each ant's position with its direction. */
    function PoseAnts(): (pose: seq<(Pos, int)>)
      reads this
      requires Placed()
      ensures |pose| == numAnts && forall i :: 0 <= i < numAnts ==> pose[i] == (Here(Slot(i)), Slot(i).dir)
    {
      var pos, dirs := PosAnts(), direction;
      seq(numAnts, i requires 0 <= i < numAnts => (pos[i], dirs[i]))
    }

    /** The loaded ants whose previous path entry is the nest: those that unload in `return_nest`. */
    function Arriving(): set<int>
      reads this
      requires Sized()
    {
      set i | 0 <= i < numAnts && isLoaded[i] && 1 <= curAge[i] <= |path[i]| && path[i][curAge[i] - 1] == posNest
    }

    /**
     * return_nest (colony.py:34-43): every loaded ant steps back one entry;
     * those now on the nest unload with age 0 and are counted in
     * `foodCollected`; unloaded ants and all paths are untouched.
     */
    method ReturnNest(ghost n0: nat, ghost n1: nat)
      requires Valid(n0, n1)
      modifies this
      ensures Valid(n0, n1)
      ensures forall i :: 0 <= i < numAnts ==> Slot(i) == Returned(old(Slot(i)), posNest)
      ensures forall i :: 0 <= i < numAnts ==> (i in old(Arriving()) <==> old(isLoaded[i]) && !isLoaded[i])
      ensures foodCollected == |old(Arriving())|
    {
      var loaded, ages, paths := isLoaded, curAge, path;
      ghost var lives, dirs := maxAge, direction;
      ghost var ants := seq(numAnts, i requires 0 <= i < numAnts => Ant(loaded[i], ages[i], lives[i], paths[i], dirs[i]));
      forall i | 0 <= i < numAnts
        ensures (loaded[i] ==> 1 <= ages[i]) && ages[i] < |paths[i]| && AntOk(ants[i], k.maxAge, posNest, n0, n1)
      {
        assert ants[i] == Slot(i);
      }
      var stepped := seq(numAnts, i requires 0 <= i < numAnts => if loaded[i] then ages[i] - 1 else ages[i]);
      var inNest := Arriving();
      curAge := seq(numAnts, i requires 0 <= i < numAnts => if i in inNest then 0 else stepped[i]);
      isLoaded := seq(numAnts, i requires 0 <= i < numAnts => if i in inNest then false else loaded[i]);
      foodCollected := |inNest|;
      forall i | 0 <= i < numAnts
        ensures Slot(i) == Returned(ants[i], posNest) && AntOk(Slot(i), k.maxAge, posNest, n0, n1)
        ensures 0 <= curAge[i] < |path[i]|
      {
        ReturnedWalksBack(ants[i], k.maxAge, posNest, n0, n1);
      }
    }

    /**
     * One round of the rejection loop (colony.py:83-105): each ant in
     * `pending` that accepts its draw writes its move at age + 1 and takes
     * the draw as its direction; the ants that reject it are returned.
     */
    method ExploreRound(pending: set<int>, cellAt: seq<bv8>, dirs: seq<int>) returns (rejected: set<int>)
      requires Sized() && |cellAt| == numAnts && |dirs| == numAnts
      requires forall i :: i in pending ==> 0 <= i < numAnts && 0 <= curAge[i] && curAge[i] + 1 < |path[i]|
      modifies this
      ensures Sized() && isLoaded == old(isLoaded) && curAge == old(curAge) && maxAge == old(maxAge)
      ensures forall i :: 0 <= i < numAnts ==> |path[i]| == old(|path[i]|)
      ensures forall i :: 0 <= i < numAnts ==>
        Slot(i) == if i in pending && Accepts(Here(old(Slot(i))), dirs[i], old(Slot(i)).dir, k.codes, cellAt[i])
          then Stepped(old(Slot(i)), ExploreMove(Here(old(Slot(i))), dirs[i], k.codes, cellAt[i]), dirs[i])
          else old(Slot(i))
      ensures rejected <= pending
      ensures forall i :: i in rejected <==> i in pending && !Accepts(Here(old(Slot(i))), dirs[i], old(Slot(i)).dir, k.codes, cellAt[i])
    {
      var prev, ages, paths := direction, curAge, path;
      var valid := set i | i in pending && Accepts(paths[i][ages[i]], dirs[i], prev[i], k.codes, cellAt[i]);
      path := seq(numAnts, i requires 0 <= i < numAnts =>
        if i in valid then paths[i][ages[i] + 1 := ExploreMove(paths[i][ages[i]], dirs[i], k.codes, cellAt[i])] else paths[i]);
      direction := seq(numAnts, i requires 0 <= i < numAnts => if i in valid then dirs[i] else prev[i]);
      rejected := pending - valid;
    }

    /**
     * The state of the rejection loop after the draws `cols` (slot `i` has
     * drawn `cols[i]`): every exploring slot is its original ant `origin[i]`
     * explored over its draws, the other slots are untouched, and the ants
     * still `pending` are the exploring ones no draw has been accepted for.
     */
    ghost predicate Exploring(origin: seq<Ant>, exploring: set<int>, pending: set<int>, cellAt: seq<bv8>, cols: seq<seq<int>>)
      reads this
    {
      && Sized() && |origin| == numAnts && |cellAt| == numAnts && |cols| == numAnts && pending <= exploring
      && (forall i :: i in exploring ==> 0 <= i < numAnts)
      && (forall i :: 0 <= i < numAnts ==> 0 <= origin[i].age && origin[i].age + 1 < |origin[i].path|)
      && (forall i :: 0 <= i < numAnts ==>
            Slot(i) == if i in exploring then Explored(origin[i], k.codes, cellAt[i], cols[i]) else origin[i])
      && (forall i :: i in exploring ==>
            (i in pending <==> FirstAccepted(Here(origin[i]), origin[i].dir, k.codes, cellAt[i], cols[i]).None?))
    }

    /** One round of the rejection loop keeps `Exploring`, with each slot's draw appended to its draws. */
    method ExploreStep(ghost origin: seq<Ant>, exploring: set<int>, pending: set<int>, cellAt: seq<bv8>, ghost cols: seq<seq<int>>,
                       dirs: seq<int>, ghost next: seq<seq<int>>) returns (rejected: set<int>)
      requires Exploring(origin, exploring, pending, cellAt, cols) && |dirs| == numAnts && next == Appended(cols, dirs)
      modifies this
      ensures isLoaded == old(isLoaded) && curAge == old(curAge) && maxAge == old(maxAge)
      ensures Exploring(origin, exploring, rejected, cellAt, next)
    {
      ghost var mid := Ants();
      forall i | i in pending ensures 0 <= curAge[i] && curAge[i] + 1 < |path[i]| {
        assert Slot(i) == Explored(origin[i], k.codes, cellAt[i], cols[i]);
      }
      rejected := ExploreRound(pending, cellAt, dirs);
      forall i | 0 <= i < numAnts
        ensures Slot(i) == if i in exploring then Explored(origin[i], k.codes, cellAt[i], next[i]) else origin[i]
        ensures i in exploring ==> (i in rejected <==> FirstAccepted(Here(origin[i]), origin[i].dir, k.codes, cellAt[i], next[i]).None?)
      {
        if i in exploring {
          ExploreRoundStep(origin[i], mid[i], Slot(i), k.codes, cellAt[i], cols[i], dirs[i], i in pending, i in rejected);
        }
      }
    }

    /**
     * The rejection loop of `explore` (colony.py:82-105): in each round every
     * still-exploring ant takes its draw from `rounds`, and only the rejected
     * ants go on.  The loop stops when every ant is accepted or the rounds
     * run out; each exploring slot ends as `Explored` over its column of
     * draws says.
     */
    method ExploreLoop(exploring: set<int>, cellAt: seq<bv8>, rounds: seq<seq<int>>)
      requires Sized() && |cellAt| == numAnts
      requires forall i :: 0 <= i < numAnts ==> 0 <= curAge[i] && curAge[i] + 1 < |path[i]|
      requires forall i :: i in exploring ==> 0 <= i < numAnts
      requires forall j :: 0 <= j < |rounds| ==> |rounds[j]| == numAnts
      modifies this
      ensures Sized() && isLoaded == old(isLoaded) && curAge == old(curAge) && maxAge == old(maxAge)
      ensures forall i :: 0 <= i < numAnts ==> |path[i]| == old(|path[i]|)
      ensures forall i :: 0 <= i < numAnts ==>
        Slot(i) == if i in exploring then Explored(old(Slot(i)), k.codes, cellAt[i], Column(rounds, i)) else old(Slot(i))
    {
      ghost var origin := Ants();
      var pending := exploring;
      var j := 0;
      ExploringInitially(origin, exploring, cellAt, rounds);
      while pending != {} && j < |rounds|
        invariant 0 <= j <= |rounds|
        invariant isLoaded == old(isLoaded) && curAge == old(curAge) && maxAge == old(maxAge)
        invariant Exploring(origin, exploring, pending, cellAt, Columns(rounds[..j], numAnts))
        decreases |rounds| - j
      {
        ColumnsSnoc(rounds, j, numAnts);
        pending := ExploreStep(origin, exploring, pending, cellAt, Columns(rounds[..j], numAnts), rounds[j],
                               Columns(rounds[..j + 1], numAnts));
        j := j + 1;
      }
      ExploringDone(origin, exploring, pending, cellAt, rounds, j);
    }

    /** Before any round, `Exploring` holds with no draws. */
    lemma ExploringInitially(origin: seq<Ant>, exploring: set<int>, cellAt: seq<bv8>, rounds: seq<seq<int>>)
      requires Sized() && origin == Ants() && |cellAt| == numAnts
      requires forall i :: 0 <= i < numAnts ==> 0 <= curAge[i] && curAge[i] + 1 < |path[i]|
      requires forall i :: i in exploring ==> 0 <= i < numAnts
      requires forall j :: 0 <= j < |rounds| ==> |rounds[j]| == numAnts
      ensures Exploring(origin, exploring, exploring, cellAt, Columns(rounds[..0], numAnts))
    {
      var cols := Columns(rounds[..0], numAnts);
      forall i | 0 <= i < numAnts ensures cols[i] == [] {
      }
    }

    /**
     * When the loop stops, every slot is explored over its whole column:
     * either all rounds were drawn, or every exploring ant was accepted and
     * later rounds would not change it.
     */
    lemma ExploringDone(origin: seq<Ant>, exploring: set<int>, pending: set<int>, cellAt: seq<bv8>, rounds: seq<seq<int>>, j: nat)
      requires j <= |rounds| && forall t :: 0 <= t < |rounds| ==> |rounds[t]| == numAnts
      requires Exploring(origin, exploring, pending, cellAt, Columns(rounds[..j], numAnts))
      requires pending == {} || j == |rounds|
      ensures forall i :: 0 <= i < numAnts ==>
        Slot(i) == if i in exploring then Explored(origin[i], k.codes, cellAt[i], Column(rounds, i)) else origin[i]
      ensures forall i :: 0 <= i < numAnts ==> |path[i]| == |origin[i].path|
    {
      var cols := Columns(rounds[..j], numAnts);
      forall i | 0 <= i < numAnts
        ensures Slot(i) == if i in exploring then Explored(origin[i], k.codes, cellAt[i], Column(rounds, i)) else origin[i]
        ensures |path[i]| == |origin[i].path|
      {
        assert Slot(i) == if i in exploring then Explored(origin[i], k.codes, cellAt[i], cols[i]) else origin[i];
        if i in exploring {
          if j < |rounds| {
            assert Column(rounds, i) == cols[i] + Column(rounds[j..], i);
            assert i !in pending;
            ExploredPrefix(origin[i], k.codes, cellAt[i], cols[i], Column(rounds[j..], i));
          } else {
            assert rounds[..j] == rounds;
          }
        }
      }
    }

    /** Ageing (colony.py:107): every unloaded ant grows one step older. */
    method AgeUnloaded()
      requires Sized()
      modifies this
      ensures Sized() && isLoaded == old(isLoaded) && path == old(path)
      ensures forall i :: 0 <= i < numAnts ==> Slot(i) == Aged(old(Slot(i)))
    {
      var loaded, ages := isLoaded, curAge;
      curAge := seq(numAnts, i requires 0 <= i < numAnts => if !loaded[i] then ages[i] + 1 else ages[i]);
    }

    /** Following (colony.py:109-122): each following ant's new entry is the following step from the previous one. */
    method Follow(following: set<int>, scent: seq<Scent>)
      requires Sized() && |scent| == numAnts
      requires forall i :: i in following ==> 0 <= i < numAnts && 1 <= curAge[i] < |path[i]|
      modifies this
      ensures Sized() && curAge == old(curAge)
      ensures forall i :: 0 <= i < numAnts ==> |path[i]| == old(|path[i]|)
      ensures forall i :: 0 <= i < numAnts ==>
        Slot(i) == if i in following then FollowedAt(old(Slot(i)), scent[i]) else old(Slot(i))
    {
      var ages, paths := curAge, path;
      path := seq(numAnts, i requires 0 <= i < numAnts =>
        if i in following then paths[i][ages[i] := FollowStep(paths[i][ages[i] - 1], scent[i])] else paths[i]);
    }

    /** Death (colony.py:124-129): ants whose age reached their lifetime restart at the nest with no direction. */
    method Respawn()
      requires Sized() && forall i :: 0 <= i < numAnts ==> 0 <= curAge[i] < |path[i]|
      modifies this
      ensures Sized() && forall i :: 0 <= i < numAnts ==> 0 <= curAge[i] < |path[i]|
      ensures forall i :: 0 <= i < numAnts ==> Slot(i) == Respawned(old(Slot(i)), posNest, NO_DIRECTION)
    {
      var ages, lives, paths, dirs := curAge, maxAge, path, direction;
      var dying := set i | 0 <= i < numAnts && ages[i] == lives[i];
      curAge := seq(numAnts, i requires 0 <= i < numAnts => if i in dying then 0 else ages[i]);
      path := seq(numAnts, i requires 0 <= i < numAnts => if i in dying then paths[i][0 := posNest] else paths[i]);
      direction := seq(numAnts, i requires 0 <= i < numAnts => if i in dying then NO_DIRECTION else dirs[i]);
    }

    /** Food pickup (colony.py:131-139): every ant standing on the food becomes loaded. */
    method PickUp(food: Pos)
      requires Placed()
      modifies this
      ensures Sized() && forall i :: 0 <= i < numAnts ==> Slot(i) == PickedUp(old(Slot(i)), food)
    {
      var pos, loaded := PosAnts(), isLoaded;
      isLoaded := seq(numAnts, i requires 0 <= i < numAnts => loaded[i] || pos[i] == food);
    }

    /** The rest of `explore` (colony.py:107-139): ageing, following, death and food pickup, in this order. */
    method Settle(following: set<int>, scent: seq<Scent>, food: Pos)
      requires Sized() && |scent| == numAnts
      requires forall i :: 0 <= i < numAnts ==> 0 <= curAge[i] && curAge[i] + 1 < |path[i]|
      requires forall i :: i in following ==> 0 <= i < numAnts && !isLoaded[i]
      modifies this
      ensures Sized() && forall i :: 0 <= i < numAnts ==>
        Slot(i) == PickedUp(Respawned(
          if i in following then FollowedAt(Aged(old(Slot(i))), scent[i]) else Aged(old(Slot(i))), posNest, NO_DIRECTION), food)
    {
      AgeUnloaded();
      label Aged:
      forall i | 0 <= i < numAnts ensures 0 <= curAge[i] < |path[i]| && (i in following ==> 1 <= curAge[i]) {
        assert Slot(i) == Aged(old(Slot(i)));
      }
      Follow(following, scent);
      Respawn();
      PickUp(food);
    }

    /**
     * The moving part of `explore` (colony.py:74-139): the rejection loop,
     * then `Settle`.  With `exploring` and `following` the unloaded ants
     * that explore and follow, every slot ends as `ExploreAnt` says.
     */
    method ExplorePhases(cellAt: seq<bv8>, scent: seq<Scent>, draws: seq<real>, rounds: seq<seq<int>>, food: Pos,
                         exploring: set<int>, following: set<int>)
      requires Sized() && |cellAt| == numAnts && |scent| == numAnts && |draws| == numAnts
      requires forall i :: 0 <= i < numAnts ==> 0 <= curAge[i] && curAge[i] + 1 < |path[i]|
      requires forall i :: i in exploring ==> 0 <= i < numAnts
      requires forall i :: i in following ==> 0 <= i < numAnts
      requires forall i :: 0 <= i < numAnts ==>
        && (i in exploring <==> !isLoaded[i] && Explores(scent[i], draws[i], k))
        && (i in following <==> !isLoaded[i] && !Explores(scent[i], draws[i], k))
      requires forall j :: 0 <= j < |rounds| ==> |rounds[j]| == numAnts
      modifies this
      ensures Sized() && forall i :: 0 <= i < numAnts ==>
        Slot(i) == ExploreAnt(old(Slot(i)), scent[i], cellAt[i], draws[i], Column(rounds, i), food, posNest, k)
    {
      ExploreLoop(exploring, cellAt, rounds);
      label Explored:
      Settle(following, scent, food);
      forall i | 0 <= i < numAnts
        ensures Slot(i) == ExploreAnt(old(Slot(i)), scent[i], cellAt[i], draws[i], Column(rounds, i), food, posNest, k)
      {
        assert old@Explored(Slot(i)) == if i in exploring then Explored(old(Slot(i)), k.codes, cellAt[i], Column(rounds, i)) else old(Slot(i));
      }
    }

    /**
     * explore (colony.py:45-139): every slot changes as `ExploreAnt` says,
     * from what its ant smells on the maze before moving, its draw in `draws`
     * and its column of `rounds`; the slot invariant is kept.
     */
    method Explore(maze: Maze.Maze, food: Pos, draws: seq<real>, rounds: seq<seq<int>>)
      requires maze.Ready() && Valid(maze.cells.Length0, maze.cells.Length1) && food != posNest
      requires |draws| == numAnts && forall j :: 0 <= j < |rounds| ==> |rounds[j]| == numAnts
      modifies this
      ensures Valid(maze.cells.Length0, maze.cells.Length1)
      ensures forall i :: 0 <= i < numAnts ==>
        var cells, ph := ToGrid(maze.cells), ToGrid(maze.pheromones);
        var here := Here(old(Slot(i)));
        Slot(i) == ExploreAnt(old(Slot(i)), Smell(cells, ph, maze.cells.Length0, maze.cells.Length1, here), Get(cells, here),
                              draws[i], Column(rounds, i), food, posNest, k)
    {
      var n0, n1 := maze.cells.Length0, maze.cells.Length1;
      var cells, ph := ToGrid(maze.cells), ToGrid(maze.pheromones);
      ExploreOn(cells, ph, n0, n1, food, draws, rounds);
    }

    /** `explore` on a snapshot of the maze's cells and field. */
    method ExploreOn(cells: Grid<bv8>, ph: Grid<real>, n0: nat, n1: nat, food: Pos, draws: seq<real>, rounds: seq<seq<int>>)
      requires Valid(n0, n1) && Layout(cells, ph, n0, n1) && NoOffGridExits(cells, n0, n1) && food != posNest
      requires |draws| == numAnts && forall j :: 0 <= j < |rounds| ==> |rounds[j]| == numAnts
      modifies this
      ensures Valid(n0, n1)
      ensures forall i :: 0 <= i < numAnts ==>
        Slot(i) == ExploreAnt(old(Slot(i)), Smell(cells, ph, n0, n1, Here(old(Slot(i)))), Get(cells, Here(old(Slot(i)))),
                              draws[i], Column(rounds, i), food, posNest, k)
    {
      var pos := PosAnts();
      forall i | 0 <= i < numAnts
        ensures AntOk(Slot(i), k.maxAge, posNest, n0, n1) && InBounds(pos[i], n0, n1) && curAge[i] + 1 < |path[i]|
      {
      }
      var cellAt := seq(numAnts, i requires 0 <= i < numAnts => Get(cells, pos[i]));
      var scent := seq(numAnts, i requires 0 <= i < numAnts => Smell(cells, ph, n0, n1, pos[i]));
      var loaded := isLoaded;
      var exploring := set i | 0 <= i < numAnts && !loaded[i] && Explores(scent[i], draws[i], k);
      var following := set i | 0 <= i < numAnts && !loaded[i] && !Explores(scent[i], draws[i], k);
      ExplorePhases(cellAt, scent, draws, rounds, food, exploring, following);
      forall i | 0 <= i < numAnts ensures AntOk(Slot(i), k.maxAge, posNest, n0, n1) && 0 <= curAge[i] < |path[i]| {
        ExploreAntKeepsOk(old(Slot(i)), cells, ph, n0, n1, draws[i], Column(rounds, i), food, posNest, k);
      }
    }

    /**
     * update (colony.py:141-170): return to the nest and explore, so that
     * every slot ends as `TickAnt` says; then the reinforced and evaporated
     * copy of the maze's field, which itself is untouched.
     */
    method Update(maze: Maze.Maze, food: Pos, draws: seq<real>, rounds: seq<seq<int>>) returns (pheromones: array2<real>)
      requires maze.Ready() && Valid(maze.cells.Length0, maze.cells.Length1) && food != posNest
      requires |draws| == numAnts && forall j :: 0 <= j < |rounds| ==> |rounds[j]| == numAnts
      modifies this
      ensures Valid(maze.cells.Length0, maze.cells.Length1) && fresh(pheromones)
      ensures forall i :: 0 <= i < numAnts ==>
        Slot(i) == TickAnt(old(Slot(i)), ToGrid(maze.cells), ToGrid(maze.pheromones), maze.cells.Length0, maze.cells.Length1,
                           draws[i], Column(rounds, i), food, posNest, k)
      ensures forall i :: 0 <= i < numAnts ==> InBounds(PosAnts()[i], maze.cells.Length0, maze.cells.Length1)
      ensures ToGrid(pheromones) == DoEvaporation(Reinforced(ToGrid(maze.pheromones), ToGrid(maze.cells),
        maze.cells.Length0, maze.cells.Length1, PosAnts(), k.alpha), k.beta)
      ensures InUnit(ToGrid(maze.pheromones)) && 0.0 <= k.alpha <= 1.0 && 0.0 <= k.beta <= 1.0 ==> InUnit(ToGrid(pheromones))
    {
      var n0, n1 := maze.cells.Length0, maze.cells.Length1;
      ReturnNest(n0, n1);
      label Returned:
      Explore(maze, food, draws, rounds);
      forall i | 0 <= i < numAnts
        ensures Slot(i) == TickAnt(old(Slot(i)), ToGrid(maze.cells), ToGrid(maze.pheromones), n0, n1, draws[i], Column(rounds, i), food, posNest, k)
        ensures InBounds(PosAnts()[i], n0, n1)
      {
        assert old@Returned(Slot(i)) == Returned(old(Slot(i)), posNest);
        assert AntOk(Slot(i), k.maxAge, posNest, n0, n1);
      }
      var marked := Reinforce(maze.cells, maze.pheromones, PosAnts(), k.alpha);
      pheromones := Scale(marked, k.beta);
      if InUnit(ToGrid(maze.pheromones)) && 0.0 <= k.alpha <= 1.0 && 0.0 <= k.beta <= 1.0 {
        ReinforcedKeepsUnit(ToGrid(maze.pheromones), ToGrid(maze.cells), n0, n1, PosAnts(), k.alpha);
        EvaporationKeepsUnit(ToGrid(marked), k.beta);
      }
    }
  }

  /**
   * The deposit of `update` (colony.py:145-168): a copy of the field with
   * every ant's cell reinforced from the original field.
   */
  method Reinforce(cells: array2<bv8>, ph: array2<real>, pos: seq<Pos>, alpha: real) returns (out: array2<real>)
    requires Layout(ToGrid(cells), ToGrid(ph), cells.Length0, cells.Length1)
    requires forall t :: 0 <= t < |pos| ==> InBounds(pos[t], cells.Length0, cells.Length1)
    ensures fresh(out)
    ensures ToGrid(out) == Reinforced(ToGrid(ph), ToGrid(cells), cells.Length0, cells.Length1, pos, alpha)
  {
    var n0, n1 := cells.Length0, cells.Length1;
    var g, h := ToGrid(cells), ToGrid(ph);
    assert |h| == ph.Length0 && |h[0]| == ph.Length1;
    out := new real[n0 + 2, n1 + 2]((i, j) requires 0 <= i < n0 + 2 && 0 <= j < n1 + 2 => h[i][j]);
    GridExt(ToGrid(out), h, n0 + 2, n1 + 2);
    var t := 0;
    while t < |pos|
      invariant 0 <= t <= |pos| && out.Length0 == n0 + 2 && out.Length1 == n1 + 2
      invariant ToGrid(out) == Reinforced(h, g, n0, n1, pos[..t], alpha)
    {
      assert pos[..t + 1][..t] == pos[..t];
      SetCell(out, Inner(pos[t]), Reinforcement(Smell(g, h, n0, n1, pos[t]), alpha));
      t := t + 1;
    }
    assert pos[..t] == pos;
  }

  /** `BETA * pheromones` (colony.py:170): a new field, every value multiplied by `beta`. */
  method Scale(a: array2<real>, beta: real) returns (b: array2<real>)
    ensures fresh(b)
    ensures ToGrid(b) == DoEvaporation(ToGrid(a), beta)
  {
    var g := ToGrid(a);
    b := new real[a.Length0, a.Length1]((i, j) requires 0 <= i < |g| && 0 <= j < |g[i]| => beta * g[i][j]);
    forall i, j | 0 <= i < a.Length0 && 0 <= j < a.Length1 ensures ToGrid(b)[i][j] == DoEvaporation(g, beta)[i][j] {
      assert b[i, j] == beta * g[i][j];
    }
    GridExt(ToGrid(b), DoEvaporation(g, beta), a.Length0, a.Length1);
  }
}
