/** primo.cpp: include/exclude backtracking over the cells of the grid in
    row-major order. A turret sees along its four rays up to the first wall or
    outpost; it is put on a cell only when no placed turret is in its sight.
    A placement is kept in two matrices (placed turrets, covered cells) that
    are copied before a turret is added, so a caller's matrices never
    change. */
module Primo {
  import opened GridModel
  import opened Placement
  import opened RowMajor

  const INF := 1000000000

  /** Rays stop at walls and outposts. */
  const Rule := WallOrOutpost

  /** A placement primo.cpp accepts: turrets on free cells, none in sight of
      another, every empty cell seen, and every outpost with exactly its
      digit's number of adjacent turrets. */
  ghost predicate IsSolution(g: Grid, S: set<Cell>)
    requires g.Rect()
  {
    && (forall p :: p in S ==> Free(g, p))
    && Independent(g, Rule, S)
    && AllSeen(g, Rule, S)
    && OutpostsMet(g, S)
  }

  class Solver {
    const g: Grid
    const outposts: seq<Cell>
    const required: seq<seq<int>>
    var minTurrets: int
    /** A placement of size minTurrets, once one has been found. */
    ghost var best: set<Cell>

    ghost predicate Valid()
      reads this
    {
      && OutpostTables(g, outposts, required)
      && minTurrets <= INF
      && (minTurrets < INF ==> IsSolution(g, best) && |best| == minTurrets)
    }

    /** The per-test-case set-up of main: record the outposts and their
        requirements, and start with no placement found. */
    constructor (grid: Grid)
      requires grid.WellFormed()
      ensures g == grid && Valid() && minTurrets == INF
    {
      var ops, req := ScanOutposts(grid);
      g, outposts, required := grid, ops, req;
      minTurrets := INF;
      best := {};
    }

    /** isTurretConflict: some turret marked 1 lies on one of the rays from
        (r, c), before the ray is stopped. */
    method IsTurretConflict(r: int, c: int, placedTurrets: array2<int>) returns (conflict: bool)
      requires g.Rect() && placedTurrets.Length0 == g.R && placedTurrets.Length1 == g.C
      ensures conflict <==> exists a, b :: 0 <= a < g.R && 0 <= b < g.C && placedTurrets[a, b] == 1
                                           && (a, b) != (r, c) && g.Sees(Rule, (r, c), (a, b))
    {
      var t := (r, c);
      for d := 0 to 4
        invariant forall a, b :: 0 <= a < g.R && 0 <= b < g.C && placedTurrets[a, b] == 1 && (a, b) != t
                                 ==> !g.SeesAlong(Rule, t, (a, b), d)
      {
        var hit := RayConflict(g, t, d, placedTurrets);
        if hit {
          return true;
        }
      }
      return false;
    }

    /** solve: decides the cell with row-major index idx, first leaving it
        empty and then, when no placed turret sees it, placing a turret on
        copies of the matrices. T is the placement made so far. On return
        minTurrets has not grown, is still the size of an accepted placement,
        and is at most the size of every solution that agrees with T on the
        cells before idx. */
    method Solve(idx: int, turretCount: int, placedTurrets: array2<int>, tempCovered: array2<bool>, ghost T: set<Cell>)
      requires Valid()
      requires 0 <= idx <= g.R * g.C
      requires placedTurrets.Length0 == g.R && placedTurrets.Length1 == g.C
      requires tempCovered.Length0 == g.R && tempCovered.Length1 == g.C
      requires Holds(placedTurrets, T)
      requires forall a, b :: 0 <= a < g.R && 0 <= b < g.C ==> tempCovered[a, b] == Covered(g, Rule, T, (a, b))
      requires forall p :: p in T ==> Free(g, p) && g.Key(p) < idx
      requires Independent(g, Rule, T)
      requires turretCount == |T|
      modifies this
      ensures Valid()
      ensures minTurrets <= old(minTurrets)
      ensures forall S :: IsSolution(g, S) && Extends(g, S, T, idx) ==> minTurrets <= |S|
      decreases g.R * g.C - idx, 1
    {
      if turretCount >= minTurrets {
        forall S | IsSolution(g, S) && Extends(g, S, T, idx)
          ensures minTurrets <= |S|
        {
          SubsetCard(T, S);
        }
        return;
      }

      if idx == g.R * g.C {
        var ok := CheckLeaf(g, Rule, outposts, required, placedTurrets, tempCovered, T);
        if ok {
          minTurrets := turretCount;
          best := T;
        }
        forall S | IsSolution(g, S) && Extends(g, S, T, idx)
          ensures S == T
        {
          ExtendsEnd(g, S, T);
        }
        return;
      }

      KeyOfIndex(g, idx);
      var r, c := idx / g.C, idx % g.C;

      // walls and outposts are skipped
      if g.cells[r][c] == '#' || IsOutpostChar(g.cells[r][c]) {
        Solve(idx + 1, turretCount, placedTurrets, tempCovered, T);
        forall S | IsSolution(g, S) && Extends(g, S, T, idx)
          ensures minTurrets <= |S|
        {
          ExtendsStep(g, S, T, idx, (r, c));
        }
        return;
      }

      // option 1: no turret here
      Solve(idx + 1, turretCount, placedTurrets, tempCovered, T);
      ghost var m1 := minTurrets;
      // option 2: a turret here
      PlaceHere(idx, r, c, turretCount, placedTurrets, tempCovered, T);
      forall S | IsSolution(g, S) && Extends(g, S, T, idx)
        ensures minTurrets <= |S|
      {
        ExtendsStep(g, S, T, idx, (r, c));
        if (r, c) !in S {
          assert m1 <= |S|;
        }
      }
    }

    /** The second branch of solve at the free cell (r, c) with row-major
        index idx: unless a placed turret sees the cell, a turret is put there
        on copies of both matrices and the search goes on with the next cell.
        Afterwards minTurrets is at most the size of every solution that
        agrees with T before idx and holds a turret at (r, c). */
    method PlaceHere(idx: int, r: int, c: int, turretCount: int, placedTurrets: array2<int>, tempCovered: array2<bool>,
                     ghost T: set<Cell>)
      requires Valid()
      requires 0 <= idx < g.R * g.C && g.Key((r, c)) == idx && Free(g, (r, c))
      requires placedTurrets.Length0 == g.R && placedTurrets.Length1 == g.C
      requires tempCovered.Length0 == g.R && tempCovered.Length1 == g.C
      requires Holds(placedTurrets, T)
      requires forall a, b :: 0 <= a < g.R && 0 <= b < g.C ==> tempCovered[a, b] == Covered(g, Rule, T, (a, b))
      requires forall p :: p in T ==> Free(g, p) && g.Key(p) < idx
      requires Independent(g, Rule, T)
      requires turretCount == |T|
      modifies this
      ensures Valid()
      ensures minTurrets <= old(minTurrets)
      ensures forall S :: IsSolution(g, S) && Extends(g, S, T + {(r, c)}, idx + 1) ==> minTurrets <= |S|
      decreases g.R * g.C - idx, 0
    {
      var conflict := IsTurretConflict(r, c, placedTurrets);
      if conflict {
        return;
      }
      var newPlacedTurrets, newCovered := CopyWithTurret(g, Rule, r, c, placedTurrets, tempCovered, T);
      AddIndependent(T, (r, c), placedTurrets);
      Solve(idx + 1, turretCount + 1, newPlacedTurrets, newCovered, T + {(r, c)});
    }

    /** Adding p to T keeps it independent when no turret of T is in sight of
        p: sight between free cells is symmetric. */
    lemma AddIndependent(T: set<Cell>, p: Cell, placedTurrets: array2<int>)
      requires g.Rect() && Free(g, p) && p !in T
      requires placedTurrets.Length0 == g.R && placedTurrets.Length1 == g.C
      requires Holds(placedTurrets, T)
      requires forall q :: q in T ==> Free(g, q)
      requires Independent(g, Rule, T)
      requires !exists a, b :: 0 <= a < g.R && 0 <= b < g.C && placedTurrets[a, b] == 1
                               && (a, b) != p && g.Sees(Rule, p, (a, b))
      ensures Independent(g, Rule, T + {p}) && |T + {p}| == |T| + 1
    {
      forall q | q in T
        ensures !g.Sees(Rule, p, q) && !g.Sees(Rule, q, p)
      {
        assert placedTurrets[q.0, q.1] == 1;
        SeesSymmetric(g, Rule, p, q);
      }
    }
  }

  /** The walk of isTurretConflict along one direction: true when a turret
      marked 1 lies on the ray from t before it is stopped. */
  method RayConflict(g: Grid, t: Cell, d: int, placedTurrets: array2<int>) returns (hit: bool)
    requires g.Rect() && 0 <= d < 4 && placedTurrets.Length0 == g.R && placedTurrets.Length1 == g.C
    ensures hit ==> exists a, b :: 0 <= a < g.R && 0 <= b < g.C && placedTurrets[a, b] == 1
                                   && (a, b) != t && g.Sees(Rule, t, (a, b))
    ensures !hit ==> forall a, b :: 0 <= a < g.R && 0 <= b < g.C && placedTurrets[a, b] == 1 && (a, b) != t
                                    ==> !g.OnRay(Rule, t, (a, b), d)
  {
    var n, k := t, 0;
    while true
      invariant n == Step(t, d, k) && 0 <= k && g.ClearRay(Rule, t, d, k)
      invariant forall a, b :: 0 <= a < g.R && 0 <= b < g.C && placedTurrets[a, b] == 1
                               ==> !InRayPrefix(t, (a, b), d, k)
      decreases Room(g.R, g.C, t, d) - k
    {
      StepNext(t, d, k);
      n := Step(n, d, 1);
      if g.Blocked(Rule, n) {
        break;
      }
      if placedTurrets[n.0, n.1] == 1 {
        RaySees(g, Rule, t, d, k + 1);
        assert placedTurrets[n.0, n.1] == 1 && (n.0, n.1) != t && g.Sees(Rule, t, (n.0, n.1));
        return true;
      }
      k := k + 1;
      PrefixGrows(t, d, k);
    }
    PrefixIsRay(g, Rule, t, d, k);
    return false;
  }

  /** The per-test-case body of main without its input and output: the least
      number of turrets of a solution, or -1 for "noxus will rise!". */
  method Run(g: Grid) returns (result: int)
    requires g.WellFormed()
    ensures result >= -1
    ensures result >= 0 ==> (exists S :: IsSolution(g, S) && |S| == result)
                            && forall S :: IsSolution(g, S) ==> result <= |S|
    ensures result == -1 ==> forall S :: IsSolution(g, S) ==> INF <= |S|
  {
    var solver := new Solver(g);
    var placedTurrets := new int[g.R, g.C]((i, j) => 0);
    var covered := new bool[g.R, g.C]((i, j) => false);
    solver.Solve(0, 0, placedTurrets, covered, {});
    forall S | IsSolution(g, S)
      ensures Extends(g, S, {}, 0)
    {
      ExtendsStart(g, S);
    }
    result := if solver.minTurrets == INF then -1 else solver.minTurrets;
    if result >= 0 {
      assert IsSolution(g, solver.best);
    }
  }
}
