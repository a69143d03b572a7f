/**
 * The carving loop of `MazeSpec` builds a perfect maze: every cell can be
 * reached from every other one through open passages, and exactly
 * n0 * n1 - 1 passages are open.
 *
 * The proof extends the loop invariant of `MazeSpec` with three facts:
 * every reached cell is joined to the start cell by a walk, every cell not
 * yet reached is still closed, and the passage count equals the number of
 * carves.  A carve joins a reached cell to a closed one, so it opens exactly
 * one new passage and extends a walk by one step.
 */
module MazeTree {
  import opened Exits
  import opened MazeSpec

  // ---------------------------------------------------------------------
  // Walks through open passages

  /** `q` is the neighbour of `p` through an exit of `p`. */
  predicate Adjacent(g: Grid<bv8>, n0: nat, n1: nat, p: Pos, q: Pos) {
    && IsGrid(g, n0, n1) && InBounds(p, n0, n1) && InBounds(q, n0, n1)
    && exists s :: q == Move(p, s) && HasExit(Get(g, p), s)
  }

  /** A non-empty sequence of in-grid cells, each adjacent to the next. */
  ghost predicate Walk(g: Grid<bv8>, n0: nat, n1: nat, w: seq<Pos>) {
    && |w| > 0 && InBounds(w[0], n0, n1)
    && forall k :: 0 <= k < |w| - 1 ==> Adjacent(g, n0, n1, w[k], w[k + 1])
  }

  ghost predicate Connected(g: Grid<bv8>, n0: nat, n1: nat, p: Pos, q: Pos) {
    exists w :: Walk(g, n0, n1, w) && w[0] == p && w[|w| - 1] == q
  }

  /** The open passages, each counted once: by its west or north end, through East or South. */
  ghost function Passages(g: Grid<bv8>, n0: nat, n1: nat): set<(Pos, Side)>
    requires IsGrid(g, n0, n1)
  {
    set r, c, t | 0 <= r < n0 && 0 <= c < n1 && t in {East, South} && HasExit(g[r][c], t) :: (Pos(r, c), t)
  }

  /** Every cell is connected to every other and exactly n0 * n1 - 1 passages are open. */
  ghost predicate Perfect(g: Grid<bv8>, n0: nat, n1: nat)
    requires IsGrid(g, n0, n1)
  {
    && (forall p, q :: InBounds(p, n0, n1) && InBounds(q, n0, n1) ==> Connected(g, n0, n1, p, q))
    && |Passages(g, n0, n1)| == n0 * n1 - 1
  }

  lemma PassagesMember(g: Grid<bv8>, n0: nat, n1: nat, x: Pos, t: Side)
    requires IsGrid(g, n0, n1)
    ensures (x, t) in Passages(g, n0, n1) <==> InBounds(x, n0, n1) && (t == East || t == South) && HasExit(Get(g, x), t)
  {
    if InBounds(x, n0, n1) && (t == East || t == South) && HasExit(Get(g, x), t) {
      assert x == Pos(x.r, x.c) && t in {East, South};
    }
  }

  /** Through a symmetric grid, adjacency goes both ways. */
  lemma AdjacentBack(g: Grid<bv8>, n0: nat, n1: nat, p: Pos, q: Pos)
    requires Adjacent(g, n0, n1, p, q) && Symmetric(g, n0, n1)
    ensures Adjacent(g, n0, n1, q, p)
  {
    var s :| q == Move(p, s) && HasExit(Get(g, p), s);
    MoveBack(p, s);
    assert HasExit(Get(g, Move(p, s)), Opposite(s));
  }

  lemma {:induction false} WalkInBounds(g: Grid<bv8>, n0: nat, n1: nat, w: seq<Pos>, k: int)
    requires Walk(g, n0, n1, w) && 0 <= k < |w|
    ensures InBounds(w[k], n0, n1)
  {
    if k > 0 {
      assert Adjacent(g, n0, n1, w[k - 1], w[k]);
    }
  }

  /** Connection is symmetric through a symmetric grid. */
  lemma ConnectedBack(g: Grid<bv8>, n0: nat, n1: nat, p: Pos, q: Pos)
    requires IsGrid(g, n0, n1) && Symmetric(g, n0, n1) && Connected(g, n0, n1, p, q)
    ensures Connected(g, n0, n1, q, p)
  {
    var w :| Walk(g, n0, n1, w) && w[0] == p && w[|w| - 1] == q;
    var n := |w|;
    var v := seq(n, i requires 0 <= i < n => w[n - 1 - i]);
    WalkInBounds(g, n0, n1, w, n - 1);
    forall k | 0 <= k < n - 1 ensures Adjacent(g, n0, n1, v[k], v[k + 1]) {
      assert Adjacent(g, n0, n1, w[n - 2 - k], w[n - 1 - k]);
      AdjacentBack(g, n0, n1, w[n - 2 - k], w[n - 1 - k]);
    }
    assert Walk(g, n0, n1, v);
  }

  /** Connection is transitive. */
  lemma ConnectedJoin(g: Grid<bv8>, n0: nat, n1: nat, p: Pos, q: Pos, x: Pos)
    requires Connected(g, n0, n1, p, q) && Connected(g, n0, n1, q, x)
    ensures Connected(g, n0, n1, p, x)
  {
    var u :| Walk(g, n0, n1, u) && u[0] == p && u[|u| - 1] == q;
    var v :| Walk(g, n0, n1, v) && v[0] == q && v[|v| - 1] == x;
    var w := u + v[1..];
    forall k | 0 <= k < |w| - 1 ensures Adjacent(g, n0, n1, w[k], w[k + 1]) {
      if k < |u| - 1 {
        assert Adjacent(g, n0, n1, u[k], u[k + 1]);
      } else {
        var j := k - |u| + 1;
        assert w[k] == v[j] && w[k + 1] == v[j + 1];
        assert Adjacent(g, n0, n1, v[j], v[j + 1]);
      }
    }
    assert Walk(g, n0, n1, w);
  }

  // ---------------------------------------------------------------------
  // One carve

  /** A carve only opens exits, so every walk stays a walk. */
  lemma CarveKeepsWalk(g: Grid<bv8>, n0: nat, n1: nat, top: Pos, s: Side, w: seq<Pos>)
    requires IsGrid(g, n0, n1) && InBounds(top, n0, n1) && InBounds(Move(top, s), n0, n1)
    requires Walk(g, n0, n1, w)
    ensures Walk(Carve(g, n0, n1, top, s), n0, n1, w)
  {
    var h := Carve(g, n0, n1, top, s);
    forall k | 0 <= k < |w| - 1 ensures Adjacent(h, n0, n1, w[k], w[k + 1]) {
      assert Adjacent(g, n0, n1, w[k], w[k + 1]);
      var t :| w[k + 1] == Move(w[k], t) && HasExit(Get(g, w[k]), t);
      CarveExits(g, n0, n1, top, s, w[k], t);
    }
  }

  /** After a carve every old connection holds, and the new cell is connected wherever `top` was. */
  lemma CarveConnected(g: Grid<bv8>, n0: nat, n1: nat, top: Pos, s: Side, p: Pos, x: Pos)
    requires IsGrid(g, n0, n1) && InBounds(top, n0, n1) && InBounds(Move(top, s), n0, n1)
    requires Connected(g, n0, n1, p, x)
    ensures Connected(Carve(g, n0, n1, top, s), n0, n1, p, x)
    ensures x == top ==> Connected(Carve(g, n0, n1, top, s), n0, n1, p, Move(top, s))
  {
    var h := Carve(g, n0, n1, top, s);
    var w :| Walk(g, n0, n1, w) && w[0] == p && w[|w| - 1] == x;
    CarveKeepsWalk(g, n0, n1, top, s, w);
    assert Walk(h, n0, n1, w);
    if x == top {
      CarveExits(g, n0, n1, top, s, top, s);
      assert Adjacent(h, n0, n1, top, Move(top, s));
      var w' := w + [Move(top, s)];
      assert Walk(h, n0, n1, w') by {
        forall k | 0 <= k < |w'| - 1 ensures Adjacent(h, n0, n1, w'[k], w'[k + 1]) {
          if k < |w| - 1 {
            assert w'[k] == w[k] && w'[k + 1] == w[k + 1];
          }
        }
      }
    }
  }

  /** Carving towards a closed cell opens exactly one new passage. */
  lemma CarvePassages(g: Grid<bv8>, n0: nat, n1: nat, top: Pos, s: Side)
    requires IsGrid(g, n0, n1) && InBounds(top, n0, n1) && InBounds(Move(top, s), n0, n1)
    requires Symmetric(g, n0, n1) && Get(g, Move(top, s)) == 0
    ensures |Passages(Carve(g, n0, n1, top, s), n0, n1)| == |Passages(g, n0, n1)| + 1
  {
    var q := Move(top, s);
    var h := Carve(g, n0, n1, top, s);
    var e := if s == East || s == South then (top, s) else (q, Opposite(s));
    forall x: Pos, t: Side ensures (x, t) in Passages(h, n0, n1) <==> (x, t) in Passages(g, n0, n1) + {e} {
      PassagesMember(g, n0, n1, x, t);
      PassagesMember(h, n0, n1, x, t);
      if InBounds(x, n0, n1) {
        CarveExits(g, n0, n1, top, s, x, t);
      }
    }
    assert Passages(h, n0, n1) == Passages(g, n0, n1) + {e};
    assert e !in Passages(g, n0, n1) by {
      PassagesMember(g, n0, n1, e.0, e.1);
      assert !HasExit(Get(g, q), Opposite(s)) && !HasExit(Get(g, top), s);
    }
  }

  // ---------------------------------------------------------------------
  // The extra invariant

  /** Reached cells are connected to the start cell, unreached cells are closed, and each carve opened one passage. */
  ghost predicate TreeInv(P: Params, st: State)
    requires WF(P, st)
  {
    && (forall p :: InBounds(p, P.n0, P.n1) && Reached(st, p) ==> Connected(st.cells, P.n0, P.n1, Centre(P), p))
    && (forall p :: InBounds(p, P.n0, P.n1) && !Reached(st, p) ==> Get(st.cells, p) == 0)
    && |Passages(st.cells, P.n0, P.n1)| == st.carves
  }

  lemma InitialTree(P: Params, rng0: int)
    requires ValidParams(P)
    ensures WF(P, Initial(P, rng0)) && TreeInv(P, Initial(P, rng0))
  {
    var st := Initial(P, rng0);
    InitialInv(P, rng0);
    var c := Centre(P);
    assert Walk(st.cells, P.n0, P.n1, [c]);
    forall p | InBounds(p, P.n0, P.n1) && Reached(st, p) ensures Connected(st.cells, P.n0, P.n1, c, p) {
      assert p == c;
      assert [c][0] == c;
    }
    forall x: Pos, t: Side ensures (x, t) !in Passages(st.cells, P.n0, P.n1) {
      PassagesMember(st.cells, P.n0, P.n1, x, t);
    }
    assert Passages(st.cells, P.n0, P.n1) == {};
  }

  lemma CarveTree(P: Params, st: State, s: Side)
    requires Inv(P, st) && TreeInv(P, st) && |st.stack| > 0
    requires s in Candidates(P, P.order, Set(st.visited, Top(st), true), Top(st))
    ensures WF(P, CarveState(P, st, s)) && TreeInv(P, CarveState(P, st, s))
  {
    var top := Top(st);
    var q := Move(top, s);
    var st' := CarveState(P, st, s);
    CarveStep(P, st, s);
    CarveUnreached(P, st, st', q);
    UnreachedMember(P, st, q);
    assert !Reached(st, q);
    assert Reached(st, top);
    forall p | InBounds(p, P.n0, P.n1) && Reached(st', p) ensures Connected(st'.cells, P.n0, P.n1, Centre(P), p) {
      if p == q {
        CarveConnected(st.cells, P.n0, P.n1, top, s, Centre(P), top);
      } else {
        assert Reached(st, p);
        CarveConnected(st.cells, P.n0, P.n1, top, s, Centre(P), p);
      }
    }
    forall p | InBounds(p, P.n0, P.n1) && !Reached(st', p) ensures Get(st'.cells, p) == 0 {
      assert p != top && p != q && !Reached(st, p);
    }
    CarvePassages(st.cells, P.n0, P.n1, top, s);
  }

  lemma PopTree(P: Params, st: State)
    requires WF(P, st) && TreeInv(P, st) && |st.stack| > 0
    ensures WF(P, PopState(P, st)) && TreeInv(P, PopState(P, st))
  {
    var st' := PopState(P, st);
    assert st.stack == st'.stack + [Top(st)];
    forall p | InBounds(p, P.n0, P.n1) ensures Reached(st', p) <==> Reached(st, p) {
      if p in st.stack && p != Top(st) {
        assert p in st'.stack;
      }
    }
  }

  lemma StepTree(P: Params, st: State)
    requires Inv(P, st) && TreeInv(P, st) && |st.stack| > 0
    ensures TreeInv(P, Step(P, st))
  {
    var vis := Set(st.visited, Top(st), true);
    var cands := Candidates(P, P.order, vis, Top(st));
    if |cands| > 0 {
      var s := cands[Raw(P.src, st.rng) % |cands|];
      StepCarves(P, st, vis, cands, s);
      CarveTree(P, st, s);
    } else {
      StepPops(P, st, vis);
      PopTree(P, st);
    }
  }

  lemma RunTree(P: Params, rng0: int)
    requires ValidParams(P)
    ensures Inv(P, Final(P, rng0)) && TreeInv(P, Final(P, rng0))
  {
    forall s | WF(P, s) && Inv(P, s) && TreeInv(P, s) && |s.stack| > 0
      ensures Inv(P, Step(P, s)) && TreeInv(P, Step(P, s))
    {
      StepInv(P, s);
      StepTree(P, s);
    }
    InitialInv(P, rng0);
    InitialTree(P, rng0);
    RunKeeps(P, Initial(P, rng0), Turns(P), s => Inv(P, s) && TreeInv(P, s));
  }

  // ---------------------------------------------------------------------
  // What the generators promise

  /** The generated maze is well formed, every cell is connected to every other one, and n0 * n1 - 1 passages are open. */
  lemma GenerateIsPerfect(P: Params, rng0: int)
    requires ValidParams(P)
    ensures WellFormedMaze(Generate(P, rng0), P.n0, P.n1)
    ensures P.n0 * P.n1 >= 2 ==> EveryCellHasExit(Generate(P, rng0), P.n0, P.n1)
    ensures Perfect(Generate(P, rng0), P.n0, P.n1)
  {
    GenerateIsWellFormed(P, rng0);
    RunTree(P, rng0);
    FinalState(P, rng0);
    var st := Final(P, rng0);
    var c := Centre(P);
    forall p, q | InBounds(p, P.n0, P.n1) && InBounds(q, P.n0, P.n1) ensures Connected(st.cells, P.n0, P.n1, p, q) {
      assert Reached(st, p) && Reached(st, q);
      ConnectedBack(st.cells, P.n0, P.n1, c, p);
      ConnectedJoin(st.cells, P.n0, P.n1, p, c, q);
    }
  }
}
