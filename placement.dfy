/** Placements of turrets, as sets of cells, and the conditions the solvers
    test them against: every empty cell seen, outposts with exactly their
    digit's number of adjacent turrets, and (where a solver checks it) no
    turret in sight of another. Sight is taken under a stop rule, so each
    solver's own rule can be plugged in; the last lemmas compare the rules. */
module Placement {
  import opened GridModel

  /** A cell a turret may stand on: on the grid, neither a wall nor an
      outpost digit. */
  predicate Free(g: Grid, p: Cell)
    requires g.Rect()
  {
    g.In(p) && g.At(p) != '#' && !IsOutpostChar(g.At(p))
  }

  /** Some turret of S sees q. */
  ghost predicate Covered(g: Grid, rule: StopRule, S: set<Cell>, q: Cell)
    requires g.Rect()
  {
    exists t :: t in S && g.Sees(rule, t, q)
  }

  /** Every empty cell is seen by a turret of S. */
  ghost predicate AllSeen(g: Grid, rule: StopRule, S: set<Cell>)
    requires g.Rect()
  {
    forall a, b :: 0 <= a < g.R && 0 <= b < g.C && g.cells[a][b] == '.' ==> Covered(g, rule, S, (a, b))
  }

  /** Every outpost has exactly its digit's number of turrets of S among its
      four neighbours. */
  ghost predicate OutpostsMet(g: Grid, S: set<Cell>)
    requires g.Rect()
  {
    forall o :: g.IsOutpost(o) ==> g.NeighboursIn(o, S, 4) == Digit(g.At(o))
  }

  /** No turret of S sees another. */
  ghost predicate Independent(g: Grid, rule: StopRule, S: set<Cell>)
    requires g.Rect()
  {
    forall p, q :: p in S && q in S && p != q ==> !g.Sees(rule, p, q)
  }

  lemma CoveredAdd(g: Grid, rule: StopRule, T: set<Cell>, p: Cell, q: Cell)
    requires g.Rect()
    ensures Covered(g, rule, T + {p}, q) <==> Covered(g, rule, T, q) || g.Sees(rule, p, q)
  {
    if Covered(g, rule, T + {p}, q) {
      var t :| t in T + {p} && g.Sees(rule, t, q);
      if t != p {
        assert t in T;
      }
    }
  }

  /** Adding a turret t raises an outpost's count by one exactly when t is
      adjacent to it. */
  lemma NeighboursAdd(g: Grid, o: Cell, S: set<Cell>, t: Cell)
    requires t !in S
    ensures g.NeighboursIn(o, S + {t}, 4) == g.NeighboursIn(o, S, 4) + (if Adjacent(o, t) then 1 else 0)
  {
    assert g.NeighboursIn(o, S + {t}, 1) == g.NeighboursIn(o, S, 1) + (if t == Step(o, 0, 1) then 1 else 0);
    assert g.NeighboursIn(o, S + {t}, 2) == g.NeighboursIn(o, S, 2)
      + (if t == Step(o, 0, 1) || t == Step(o, 1, 1) then 1 else 0);
    assert g.NeighboursIn(o, S + {t}, 3) == g.NeighboursIn(o, S, 3)
      + (if t == Step(o, 0, 1) || t == Step(o, 1, 1) || t == Step(o, 2, 1) then 1 else 0);
  }

  /** More turrets never lower an outpost's count. */
  lemma NeighboursMono(g: Grid, o: Cell, S: set<Cell>, U: set<Cell>, n: int)
    requires S <= U && 0 <= n <= 4
    ensures g.NeighboursIn(o, S, n) <= g.NeighboursIn(o, U, n)
  {
  }

  /** Wherever r2 stops a ray on g, r1 stops it too. */
  predicate StopsNoMore(g: Grid, r2: StopRule, r1: StopRule)
    requires g.Rect()
  {
    forall i, j :: 0 <= i < g.R && 0 <= j < g.C && Stops(r2, g.cells[i][j]) ==> Stops(r1, g.cells[i][j])
  }

  /** A ray that gets through under r1 gets through under a rule that stops
      no more often. */
  lemma {:induction false} ClearRayWeaker(g: Grid, r1: StopRule, r2: StopRule, p: Cell, d: int, k: int)
    requires g.Rect() && 0 <= d < 4 && StopsNoMore(g, r2, r1)
    requires g.ClearRay(r1, p, d, k)
    ensures g.ClearRay(r2, p, d, k)
    decreases k
  {
    if k > 0 {
      ClearRayWeaker(g, r1, r2, p, d, k - 1);
      var n := Step(p, d, k);
      assert g.In(n) && !Stops(r1, g.cells[n.0][n.1]);
    }
  }

  lemma SeesWeaker(g: Grid, r1: StopRule, r2: StopRule, t: Cell, q: Cell)
    requires g.Rect() && StopsNoMore(g, r2, r1)
    requires g.Sees(r1, t, q)
    ensures g.Sees(r2, t, q)
  {
    if q != t {
      ClearRayWeaker(g, r1, r2, t, DirTo(t, q), Dist(t, q));
    }
  }

  /** On a grid of walls, empty cells and outposts, stopping at walls and
      outposts is stopping at every non-empty cell, and stopping at walls
      only stops no more often. */
  lemma RulesOnWellFormed(g: Grid)
    requires g.WellFormed()
    ensures StopsNoMore(g, WallOrOutpost, NonEmpty) && StopsNoMore(g, NonEmpty, WallOrOutpost)
    ensures StopsNoMore(g, WallOnly, WallOrOutpost)
  {
  }

  /** Hence the walls-and-outposts rule and the non-empty rule give the same
      sight, and the walls-only rule sees at least as far. */
  lemma SightOnWellFormed(g: Grid, t: Cell, q: Cell)
    requires g.WellFormed()
    ensures g.Sees(WallOrOutpost, t, q) <==> g.Sees(NonEmpty, t, q)
    ensures g.Sees(WallOrOutpost, t, q) ==> g.Sees(WallOnly, t, q)
  {
    RulesOnWellFormed(g);
    if g.Sees(WallOrOutpost, t, q) {
      SeesWeaker(g, WallOrOutpost, NonEmpty, t, q);
      SeesWeaker(g, WallOrOutpost, WallOnly, t, q);
    }
    if g.Sees(NonEmpty, t, q) {
      SeesWeaker(g, NonEmpty, WallOrOutpost, t, q);
    }
  }
}
