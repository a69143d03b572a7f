/**
 * The pheromone field of the original version (pheromone.py): a grid with a
 * one-cell ghost margin, so maze cell (r, c) lives at (r + 1, c + 1) and its
 * four neighbours can be read without bounds tests.  `initPheromone` and
 * `doEvaporation` are pure; `mark` writes one cell of the array in place.
 * Pheromone values are reals (the float rounding of NumPy is not modelled).
 */
module Pheromone {
  import opened Exits

  /** Where maze cell `p` lives in the ghost-margin grid. */
  function Inner(p: Pos): Pos {
    Pos(p.r + 1, p.c + 1)
  }

  /** Where the neighbour of `p` on side `s` lives in the ghost-margin grid. */
  function Beside(p: Pos, s: Side): Pos {
    Inner(Move(p, s))
  }

  /** The four ghost-grid indices `mark` reads (pheromone.py:22-25). */
  lemma BesideIndices(p: Pos)
    ensures Beside(p, West) == Pos(p.r + 1, p.c) && Beside(p, East) == Pos(p.r + 1, p.c + 2)
    ensures Beside(p, South) == Pos(p.r + 2, p.c + 1) && Beside(p, North) == Pos(p.r, p.c + 1)
  {
  }

  /** Every value lies in [0, 1]. */
  ghost predicate InUnit(g: Grid<real>) {
    forall i, j :: 0 <= i < |g| && 0 <= j < |g[i]| ==> 0.0 <= g[i][j] <= 1.0
  }

  // ---------------------------------------------------------------------
  // initPheromone and doEvaporation

  /**
   * initPheromone (pheromone.py:10-13): a (d0 + 2) x (d1 + 2) grid of zeros
   * with 1.0 on the food cell.
   */
  function InitPheromone(d0: nat, d1: nat, food: Pos): (g: Grid<real>)
    requires InBounds(Inner(food), d0 + 2, d1 + 2)
    ensures IsGrid(g, d0 + 2, d1 + 2)
    ensures forall i, j :: 0 <= i < d0 + 2 && 0 <= j < d1 + 2 ==>
      g[i][j] == if Pos(i, j) == Inner(food) then 1.0 else 0.0
  {
    Set(Fill(d0 + 2, d1 + 2, 0.0), Inner(food), 1.0)
  }

  /** The initial field lies in [0, 1] and holds its maximum, 1.0, on the food cell only. */
  lemma InitPheromoneInUnit(d0: nat, d1: nat, food: Pos)
    requires InBounds(Inner(food), d0 + 2, d1 + 2)
    ensures InUnit(InitPheromone(d0, d1, food))
    ensures Get(InitPheromone(d0, d1, food), Inner(food)) == 1.0
    ensures forall p :: InBounds(p, d0 + 2, d1 + 2) && Get(InitPheromone(d0, d1, food), p) == 1.0 ==> p == Inner(food)
  {
    var g := InitPheromone(d0, d1, food);
    forall p | InBounds(p, d0 + 2, d1 + 2) && Get(g, p) == 1.0 ensures p == Inner(food) {
      assert g[p.r][p.c] == if Pos(p.r, p.c) == Inner(food) then 1.0 else 0.0;
    }
  }

  /** doEvaporation (pheromone.py:15-16): every entry multiplied by `beta`. */
  function DoEvaporation(g: Grid<real>, beta: real): (h: Grid<real>)
    ensures |h| == |g| && forall i :: 0 <= i < |g| ==> |h[i]| == |g[i]|
    ensures forall i, j :: 0 <= i < |g| && 0 <= j < |g[i]| ==> h[i][j] == beta * g[i][j]
  {
    seq(|g|, i requires 0 <= i < |g| => seq(|g[i]|, j requires 0 <= j < |g[i]| => beta * g[i][j]))
  }

  /** A zero field stays zero; a non-negative field stays non-negative when `beta` is. */
  lemma EvaporationKeepsSign(g: Grid<real>, beta: real)
    ensures (forall i, j :: 0 <= i < |g| && 0 <= j < |g[i]| ==> g[i][j] == 0.0) ==>
      forall i, j :: 0 <= i < |g| && 0 <= j < |g[i]| ==> DoEvaporation(g, beta)[i][j] == 0.0
    ensures beta >= 0.0 && (forall i, j :: 0 <= i < |g| && 0 <= j < |g[i]| ==> g[i][j] >= 0.0) ==>
      forall i, j :: 0 <= i < |g| && 0 <= j < |g[i]| ==> DoEvaporation(g, beta)[i][j] >= 0.0
  {
    var h := DoEvaporation(g, beta);
    if beta >= 0.0 && (forall i, j :: 0 <= i < |g| && 0 <= j < |g[i]| ==> g[i][j] >= 0.0) {
      forall i, j | 0 <= i < |g| && 0 <= j < |g[i]| ensures h[i][j] >= 0.0 {
        ProductNonNegative(beta, g[i][j]);
      }
    }
  }

  /** With `beta` in [0, 1], evaporation keeps a field inside [0, 1]. */
  lemma EvaporationKeepsUnit(g: Grid<real>, beta: real)
    requires 0.0 <= beta <= 1.0 && InUnit(g)
    ensures InUnit(DoEvaporation(g, beta))
  {
    var h := DoEvaporation(g, beta);
    forall i, j | 0 <= i < |h| && 0 <= j < |h[i]| ensures 0.0 <= h[i][j] <= 1.0 {
      assert h[i][j] == beta * g[i][j] && 0.0 <= g[i][j] <= 1.0;
      ProductNonNegative(beta, g[i][j]);
      ProductAtMost(beta, g[i][j]);
      assert beta * g[i][j] <= g[i][j];
    }
  }

  lemma ProductNonNegative(x: real, y: real)
    requires x >= 0.0 && y >= 0.0
    ensures x * y >= 0.0
  {
  }

  lemma ProductAtMost(x: real, y: real)
    requires 0.0 <= x <= 1.0 && 0.0 <= y
    ensures x * y <= y
  {
    assert y - x * y == (1.0 - x) * y;
    ProductNonNegative(1.0 - x, y);
  }

  // ---------------------------------------------------------------------
  // mark

  /**
   * `hasWESNExists[code]`: mark's flag list is indexed by direction code,
   * so `flags[Code(codes, s)]` is the flag it consults for side `s`.
   */
  function Flag(flags: seq<bool>, codes: DirCodes, s: Side): bool
    requires |flags| == 4 && ValidCodes(codes)
  {
    flags[Code(codes, s)]
  }

  /** Where `mark` may be called: both coordinates non-negative (pheromone.py:20-21) and the reads inside the array. */
  predicate MarkSite(n0: int, n1: int, p: Pos) {
    0 <= p.r && 0 <= p.c && p.r + 2 < n0 && p.c + 2 < n1
  }

  /** The value `mark` takes from side `s`: the neighbour's value clamped at 0 when the flag is set, else 0. */
  function Sensed(g: Grid<real>, p: Pos, s: Side, open: bool): (v: real)
    requires |g| >= 1 && IsGrid(g, |g|, |g[0]|) && MarkSite(|g|, |g[0]|, p)
    ensures v >= 0.0
    ensures !open ==> v == 0.0
    ensures open ==> v == if Get(g, Beside(p, s)) > 0.0 then Get(g, Beside(p, s)) else 0.0
  {
    if open then Clamp(Get(g, Beside(p, s))) else 0.0
  }

  function Clamp(x: real): real {
    if x > 0.0 then x else 0.0
  }

  function Max(x: real, y: real): (m: real)
    ensures m >= x && m >= y && (m == x || m == y)
  {
    if x >= y then x else y
  }

  /** `alpha * max + (1 - alpha) * 0.25 * sum` of four values (pheromone.py:27). */
  function Blend(alpha: real, w: real, e: real, s: real, n: real): real {
    alpha * Max(Max(w, e), Max(s, n)) + (1.0 - alpha) * 0.25 * (w + e + s + n)
  }

  /** For `alpha` in [0, 1] and non-negative inputs, the blend lies between 0 and the largest input. */
  lemma BlendWithin(alpha: real, w: real, e: real, s: real, n: real)
    requires 0.0 <= alpha <= 1.0
    requires w >= 0.0 && e >= 0.0 && s >= 0.0 && n >= 0.0
    ensures 0.0 <= Blend(alpha, w, e, s, n) <= Max(Max(w, e), Max(s, n))
  {
    var m := Max(Max(w, e), Max(s, n));
    var mean := 0.25 * (w + e + s + n);
    assert 0.0 <= mean <= m;
    ProductNonNegative(alpha, m);
    ProductNonNegative(1.0 - alpha, mean);
    assert m - Blend(alpha, w, e, s, n) == (1.0 - alpha) * (m - mean);
    ProductNonNegative(1.0 - alpha, m - mean);
  }

  /** The value `mark` writes on cell `p` (pheromone.py:22-27). */
  function Deposit(g: Grid<real>, p: Pos, flags: seq<bool>, codes: DirCodes, alpha: real): real
    requires |g| >= 1 && IsGrid(g, |g|, |g[0]|) && MarkSite(|g|, |g[0]|, p)
    requires |flags| == 4 && ValidCodes(codes)
  {
    Blend(alpha,
      Sensed(g, p, West, Flag(flags, codes, West)),
      Sensed(g, p, East, Flag(flags, codes, East)),
      Sensed(g, p, South, Flag(flags, codes, South)),
      Sensed(g, p, North, Flag(flags, codes, North)))
  }

  /** The field after `mark`: cell `p` holds the deposit, every other cell is unchanged. */
  function Marked(g: Grid<real>, p: Pos, flags: seq<bool>, codes: DirCodes, alpha: real): (h: Grid<real>)
    requires |g| >= 1 && IsGrid(g, |g|, |g[0]|) && MarkSite(|g|, |g[0]|, p)
    requires |flags| == 4 && ValidCodes(codes)
    ensures IsGrid(h, |g|, |g[0]|) && |h[0]| == |g[0]|
  {
    Set(g, Inner(p), Deposit(g, p, flags, codes, alpha))
  }

  /**
   * With `alpha` in [0, 1], the deposit is non-negative and at most the
   * largest value on a flagged side; a side without its flag contributes
   * nothing, whatever is stored there.
   */
  lemma DepositWithin(g: Grid<real>, p: Pos, flags: seq<bool>, codes: DirCodes, alpha: real)
    requires |g| >= 1 && IsGrid(g, |g|, |g[0]|) && MarkSite(|g|, |g[0]|, p)
    requires |flags| == 4 && ValidCodes(codes) && 0.0 <= alpha <= 1.0
    ensures 0.0 <= Deposit(g, p, flags, codes, alpha)
    ensures (forall s :: Flag(flags, codes, s) ==> Get(g, Beside(p, s)) <= 1.0) ==> Deposit(g, p, flags, codes, alpha) <= 1.0
    ensures (forall s :: !Flag(flags, codes, s)) ==> Deposit(g, p, flags, codes, alpha) == 0.0
  {
    var w, e := Sensed(g, p, West, Flag(flags, codes, West)), Sensed(g, p, East, Flag(flags, codes, East));
    var s, n := Sensed(g, p, South, Flag(flags, codes, South)), Sensed(g, p, North, Flag(flags, codes, North));
    BlendWithin(alpha, w, e, s, n);
  }

  /** A side whose flag is clear does not influence the deposit: changing the value stored there changes nothing. */
  lemma ClosedSideIgnored(g: Grid<real>, p: Pos, flags: seq<bool>, codes: DirCodes, alpha: real, s: Side, v: real)
    requires |g| >= 1 && IsGrid(g, |g|, |g[0]|) && MarkSite(|g|, |g[0]|, p)
    requires |flags| == 4 && ValidCodes(codes) && !Flag(flags, codes, s)
    ensures Deposit(Set(g, Beside(p, s), v), p, flags, codes, alpha) == Deposit(g, p, flags, codes, alpha)
  {
    var h := Set(g, Beside(p, s), v);
    forall t | t != s ensures Get(h, Beside(p, t)) == Get(g, Beside(p, t)) {
      assert Beside(p, t) != Beside(p, s);
    }
    assert Sensed(h, p, s, false) == Sensed(g, p, s, false);
  }

  /** With `alpha` in [0, 1], marking keeps a field inside [0, 1]. */
  lemma MarkKeepsUnit(g: Grid<real>, p: Pos, flags: seq<bool>, codes: DirCodes, alpha: real)
    requires |g| >= 1 && IsGrid(g, |g|, |g[0]|) && MarkSite(|g|, |g[0]|, p)
    requires |flags| == 4 && ValidCodes(codes) && 0.0 <= alpha <= 1.0
    requires InUnit(g)
    ensures InUnit(Marked(g, p, flags, codes, alpha))
  {
    DepositWithin(g, p, flags, codes, alpha);
  }

  /**
   * The caller in fourmi.py:316-318 passes `[north, east, west, south]`:
   * `mark` then consults the right flag for every side exactly when the
   * codes are North 0, East 1, West 2, South 3.
   */
  lemma FlagListMatchesCodes(codes: DirCodes)
    requires ValidCodes(codes)
    ensures (forall north, east, west, south: bool, s: Side {:trigger Flag([north, east, west, south], codes, s)} ::
               Flag([north, east, west, south], codes, s) == match s
                 case North => north case East => east case West => west case South => south)
       <==> codes.north == 0 && codes.east == 1 && codes.west == 2 && codes.south == 3
  {
    if !(codes.north == 0 && codes.east == 1 && codes.west == 2 && codes.south == 3) {
      var s: Side;
      if codes.north != 0 {
        s := North;
      } else if codes.east != 1 {
        s := East;
      } else if codes.west != 2 {
        s := West;
      } else {
        s := South;
      }
      var flags := seq(4, k => k == Code(codes, s));
      assert flags == [flags[0], flags[1], flags[2], flags[3]];
      assert Flag(flags, codes, s);
    }
  }

  /**
   * mark (pheromone.py:18-27) on the ghost-margin array: cell `p` of the
   * maze, stored at `Inner(p)`, receives the deposit; every other cell keeps
   * its value.
   */
  method Mark(ph: array2<real>, p: Pos, flags: seq<bool>, codes: DirCodes, alpha: real)
    requires MarkSite(ph.Length0, ph.Length1, p)
    requires |flags| == 4 && ValidCodes(codes)
    modifies ph
    ensures ToGrid(ph) == Marked(old(ToGrid(ph)), p, flags, codes, alpha)
  {
    ghost var g := ToGrid(ph);
    var w := if flags[codes.west] then ph[p.r + 1, p.c] else 0.0;
    assert Clamp(w) == Sensed(g, p, West, Flag(flags, codes, West));
    var e := if flags[codes.east] then ph[p.r + 1, p.c + 2] else 0.0;
    assert Clamp(e) == Sensed(g, p, East, Flag(flags, codes, East));
    var s := if flags[codes.south] then ph[p.r + 2, p.c + 1] else 0.0;
    assert Clamp(s) == Sensed(g, p, South, Flag(flags, codes, South));
    var n := if flags[codes.north] then ph[p.r, p.c + 1] else 0.0;
    assert Clamp(n) == Sensed(g, p, North, Flag(flags, codes, North));
    w, e, s, n := Clamp(w), Clamp(e), Clamp(s), Clamp(n);
    var value := Blend(alpha, w, e, s, n);
    assert value == Deposit(g, p, flags, codes, alpha);
    SetCell(ph, Inner(p), value);
  }
}
