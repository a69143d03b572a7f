/**
 * Cell exit masks, grid coordinates and the direction codes shared by the
 * maze generators and both colonies.
 *
 * A maze cell stores a 4-bit mask of its open sides: NORTH = 1, EAST = 2,
 * SOUTH = 4, WEST = 8 (maze.py:5-8, labyrinthe.py:12-15).  A position is
 * (r, c): going NORTH decreases r, SOUTH increases r, WEST decreases c and
 * EAST increases c.  Grids are sequences of rows, arrays are `array2`.
 */
module Exits {

  const NORTH: bv8 := 1
  const EAST: bv8 := 2
  const SOUTH: bv8 := 4
  const WEST: bv8 := 8

  datatype Side = North | East | South | West

  datatype Pos = Pos(r: int, c: int)

  function Mask(s: Side): bv8 {
    match s
    case North => NORTH
    case East => EAST
    case South => SOUTH
    case West => WEST
  }

  function Opposite(s: Side): (o: Side)
    ensures o != s && Mask(o) != Mask(s)
  {
    match s
    case North => South
    case South => North
    case East => West
    case West => East
  }

  /** The orthogonal neighbour of `p` on side `s`. */
  function Move(p: Pos, s: Side): (q: Pos)
    ensures q != p
    ensures q.r == p.r || q.c == p.c
  {
    match s
    case North => Pos(p.r - 1, p.c)
    case South => Pos(p.r + 1, p.c)
    case West => Pos(p.r, p.c - 1)
    case East => Pos(p.r, p.c + 1)
  }

  lemma MoveBack(p: Pos, s: Side)
    ensures Move(Move(p, s), Opposite(s)) == p
  {
  }

  predicate HasExit(v: bv8, s: Side) {
    v & Mask(s) != 0
  }

  predicate IsMask(v: bv8) {
    v < 16
  }

  function ExitCount(v: bv8): nat {
    (if HasExit(v, North) then 1 else 0) + (if HasExit(v, East) then 1 else 0) +
    (if HasExit(v, South) then 1 else 0) + (if HasExit(v, West) then 1 else 0)
  }

  /** A cell value is the sum of the masks of its exits (labyrinthe.py:2-7). */
  lemma MaskIsSumOfExits(v: bv8)
    requires IsMask(v)
    ensures v == (if HasExit(v, North) then NORTH else 0) + (if HasExit(v, East) then EAST else 0)
               + (if HasExit(v, South) then SOUTH else 0) + (if HasExit(v, West) then WEST else 0)
    ensures v == 0 <==> ExitCount(v) == 0
  {
  }

  /** `v |= Mask(s)` opens side `s` and leaves every other side as it was. */
  lemma OrOpens(v: bv8, s: Side)
    ensures forall t :: HasExit(v | Mask(s), t) <==> t == s || HasExit(v, t)
    ensures IsMask(v) ==> IsMask(v | Mask(s))
    ensures v | Mask(s) != 0
  {
    forall t ensures HasExit(v | Mask(s), t) <==> t == s || HasExit(v, t) {
      match t
      case North =>
      case East =>
      case South =>
      case West =>
    }
  }

  /** `v &= 15 - Mask(s)` closes side `s` and, on a mask without side `s`, changes nothing. */
  lemma AndCloses(v: bv8, s: Side)
    requires IsMask(v)
    ensures !HasExit(v & (15 - Mask(s)), s)
    ensures !HasExit(v, s) ==> v & (15 - Mask(s)) == v
  {
  }

  // ---------------------------------------------------------------------
  // Grids

  type Grid<T> = seq<seq<T>>

  predicate IsGrid<T>(g: Grid<T>, n0: nat, n1: nat) {
    |g| == n0 && forall i :: 0 <= i < n0 ==> |g[i]| == n1
  }

  predicate InBounds(p: Pos, n0: int, n1: int) {
    0 <= p.r < n0 && 0 <= p.c < n1
  }

  function Get<T>(g: Grid<T>, p: Pos): T
    requires 0 <= p.r < |g| && 0 <= p.c < |g[p.r]|
  {
    g[p.r][p.c]
  }

  function Set<T>(g: Grid<T>, p: Pos, v: T): (h: Grid<T>)
    requires 0 <= p.r < |g| && 0 <= p.c < |g[p.r]|
    ensures |h| == |g| && forall i :: 0 <= i < |g| ==> |h[i]| == |g[i]|
    ensures forall i, j :: 0 <= i < |g| && 0 <= j < |g[i]| ==> h[i][j] == if i == p.r && j == p.c then v else g[i][j]
  {
    g[p.r := g[p.r][p.c := v]]
  }

  /** Writing a cell's own value back changes nothing. */
  lemma SetSame<T>(g: Grid<T>, p: Pos)
    requires 0 <= p.r < |g| && 0 <= p.c < |g[p.r]|
    ensures Set(g, p, Get(g, p)) == g
  {
    assert g[p.r][p.c := g[p.r][p.c]] == g[p.r];
  }

  function Fill<T>(n0: nat, n1: nat, v: T): (g: Grid<T>)
    ensures IsGrid(g, n0, n1)
    ensures forall i, j :: 0 <= i < n0 && 0 <= j < n1 ==> g[i][j] == v
  {
    seq(n0, i => seq(n1, j => v))
  }

  /** The contents of a two-dimensional array, as a grid value. */
  function ToGrid<T>(a: array2<T>): (g: Grid<T>)
    reads a
    ensures IsGrid(g, a.Length0, a.Length1)
    ensures forall i, j :: 0 <= i < a.Length0 && 0 <= j < a.Length1 ==> g[i][j] == a[i, j]
  {
    seq(a.Length0, i requires 0 <= i < a.Length0 reads a =>
      seq(a.Length1, j requires 0 <= j < a.Length1 reads a => a[i, j]))
  }

  lemma GridExt<T>(g: Grid<T>, h: Grid<T>, n0: nat, n1: nat)
    requires IsGrid(g, n0, n1) && IsGrid(h, n0, n1)
    requires forall i, j :: 0 <= i < n0 && 0 <= j < n1 ==> g[i][j] == h[i][j]
    ensures g == h
  {
    forall i | 0 <= i < n0 ensures g[i] == h[i] {
    }
  }

  /** `a[p] := v` on an array, stated on its grid value. */
  method SetCell<T>(a: array2<T>, p: Pos, v: T)
    requires InBounds(p, a.Length0, a.Length1)
    modifies a
    ensures ToGrid(a) == Set(old(ToGrid(a)), p, v)
  {
    a[p.r, p.c] := v;
    GridExt(ToGrid(a), Set(old(ToGrid(a)), p, v), a.Length0, a.Length1);
  }

  // ---------------------------------------------------------------------
  // Direction codes (direction.py / constants.py are not part of this
  // model: the codes are parameters)

  datatype DirCodes = DirCodes(north: int, east: int, west: int, south: int, none: int)

  /** The constraint the colonies rely on: the four codes are 0..3 and opposite directions sum to 3. */
  predicate ValidCodes(d: DirCodes) {
    && 0 <= d.north < 4 && 0 <= d.east < 4 && 0 <= d.west < 4 && 0 <= d.south < 4
    && d.north + d.south == 3 && d.east + d.west == 3 && d.north != d.east && d.north != d.west
  }

  function Code(d: DirCodes, s: Side): int {
    match s
    case North => d.north
    case East => d.east
    case West => d.west
    case South => d.south
  }

  /** Under valid codes, "sums to 3" is exactly "is the reverse direction". */
  lemma SumThreeIsReverse(d: DirCodes, s: Side, t: Side)
    requires ValidCodes(d)
    ensures Code(d, s) + Code(d, t) == 3 <==> t == Opposite(s)
  {
  }
}
