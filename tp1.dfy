/** tp1.cpp: the same row-major include/exclude backtracking as primo.cpp,
    with two differences: a ray stops only at a wall or the grid's edge (it
    passes over outposts), and a turret is put on every free cell the search
    reaches, whether or not another turret sees it. */
module Tp1 {
  import opened GridModel
  import opened Placement
  import opened RowMajor

  const INF := 1000000000

  /** Rays stop at walls only. */
  const Rule := WallOnly

  /** A placement tp1.cpp accepts: turrets on free cells, every empty cell
      seen, and every outpost with exactly its digit's number of adjacent
      turrets. Turrets may see each other. */
  ghost predicate IsSolution(g: Grid, S: set<Cell>)
    requires g.Rect()
  {
    && (forall p :: p in S ==> Free(g, p))
    && AllSeen(g, Rule, S)
    && OutpostsMet(g, S)
  }

  class Solver {
    const g: Grid
    const outposts: seq<Cell>
    const required: seq<seq<int>>
    var minTurrets: int
    /** A placement of size minTurrets, once one has been found. */
    ghost var best: set<Cell>

    ghost predicate Valid()
      reads this
    {
      && OutpostTables(g, outposts, required)
      && minTurrets <= INF
      && (minTurrets < INF ==> IsSolution(g, best) && |best| == minTurrets)
    }

    /** The per-test-case set-up of main. */
    constructor (grid: Grid)
      requires grid.WellFormed()
      ensures g == grid && Valid() && minTurrets == INF
    {
      var ops, req := ScanOutposts(grid);
      g, outposts, required := grid, ops, req;
      minTurrets := INF;
      best := {};
    }

    /** solve: decides the cell with row-major index idx, first leaving it
        empty and then placing a turret on copies of the matrices. On return
        minTurrets has not grown, is still the size of an accepted placement,
        and is at most the size of every solution that agrees with T on the
        cells before idx. */
    method Solve(idx: int, turretCount: int, placedTurrets: array2<int>, tempCovered: array2<bool>, ghost T: set<Cell>)
      requires Valid()
      requires 0 <= idx <= g.R * g.C
      requires placedTurrets.Length0 == g.R && placedTurrets.Length1 == g.C
      requires tempCovered.Length0 == g.R && tempCovered.Length1 == g.C
      requires Holds(placedTurrets, T)
      requires forall a, b :: 0 <= a < g.R && 0 <= b < g.C ==> tempCovered[a, b] == Covered(g, Rule, T, (a, b))
      requires forall p :: p in T ==> Free(g, p) && g.Key(p) < idx
      requires turretCount == |T|
      modifies this
      ensures Valid()
      ensures minTurrets <= old(minTurrets)
      ensures forall S :: IsSolution(g, S) && Extends(g, S, T, idx) ==> minTurrets <= |S|
      decreases g.R * g.C - idx, 1
    {
      if turretCount >= minTurrets {
        forall S | IsSolution(g, S) && Extends(g, S, T, idx)
          ensures minTurrets <= |S|
        {
          SubsetCard(T, S);
        }
        return;
      }

      if idx == g.R * g.C {
        var ok := CheckLeaf(g, Rule, outposts, required, placedTurrets, tempCovered, T);
        if ok {
          minTurrets := turretCount;
          best := T;
        }
        forall S | IsSolution(g, S) && Extends(g, S, T, idx)
          ensures S == T
        {
          ExtendsEnd(g, S, T);
        }
        return;
      }

      KeyOfIndex(g, idx);
      var r, c := idx / g.C, idx % g.C;

      // walls and outposts are skipped
      if g.cells[r][c] == '#' || IsOutpostChar(g.cells[r][c]) {
        Solve(idx + 1, turretCount, placedTurrets, tempCovered, T);
        forall S | IsSolution(g, S) && Extends(g, S, T, idx)
          ensures minTurrets <= |S|
        {
          ExtendsStep(g, S, T, idx, (r, c));
        }
        return;
      }

      // no turret here
      Solve(idx + 1, turretCount, placedTurrets, tempCovered, T);
      ghost var m1 := minTurrets;
      // a turret here
      PlaceHere(idx, r, c, turretCount, placedTurrets, tempCovered, T);
      forall S | IsSolution(g, S) && Extends(g, S, T, idx)
        ensures minTurrets <= |S|
      {
        ExtendsStep(g, S, T, idx, (r, c));
        if (r, c) !in S {
          assert m1 <= |S|;
        }
      }
    }

    /** The second branch of solve at the free cell (r, c) with row-major
        index idx: a turret is put there on copies of both matrices and the
        search goes on with the next cell. Afterwards minTurrets is at most
        the size of every solution that agrees with T before idx and holds a
        turret at (r, c). */
    method PlaceHere(idx: int, r: int, c: int, turretCount: int, placedTurrets: array2<int>, tempCovered: array2<bool>,
                     ghost T: set<Cell>)
      requires Valid()
      requires 0 <= idx < g.R * g.C && g.Key((r, c)) == idx && Free(g, (r, c))
      requires placedTurrets.Length0 == g.R && placedTurrets.Length1 == g.C
      requires tempCovered.Length0 == g.R && tempCovered.Length1 == g.C
      requires Holds(placedTurrets, T)
      requires forall a, b :: 0 <= a < g.R && 0 <= b < g.C ==> tempCovered[a, b] == Covered(g, Rule, T, (a, b))
      requires forall p :: p in T ==> Free(g, p) && g.Key(p) < idx
      requires turretCount == |T|
      modifies this
      ensures Valid()
      ensures minTurrets <= old(minTurrets)
      ensures forall S :: IsSolution(g, S) && Extends(g, S, T + {(r, c)}, idx + 1) ==> minTurrets <= |S|
      decreases g.R * g.C - idx, 0
    {
      var newPlacedTurrets, newCovered := CopyWithTurret(g, Rule, r, c, placedTurrets, tempCovered, T);
      Solve(idx + 1, turretCount + 1, newPlacedTurrets, newCovered, T + {(r, c)});
    }
  }

  /** The per-test-case body of main without its input and output: the least
      number of turrets of a solution, or -1 for "noxus will rise!". */
  method Run(g: Grid) returns (result: int)
    requires g.WellFormed()
    ensures result >= -1
    ensures result >= 0 ==> (exists S :: IsSolution(g, S) && |S| == result)
                            && forall S :: IsSolution(g, S) ==> result <= |S|
    ensures result == -1 ==> forall S :: IsSolution(g, S) ==> INF <= |S|
  {
    var solver := new Solver(g);
    var placedTurrets := new int[g.R, g.C]((i, j) => 0);
    var covered := new bool[g.R, g.C]((i, j) => false);
    solver.Solve(0, 0, placedTurrets, covered, {});
    forall S | IsSolution(g, S)
      ensures Extends(g, S, {}, 0)
    {
      ExtendsStart(g, S);
    }
    result := if solver.minTurrets == INF then -1 else solver.minTurrets;
    if result >= 0 {
      assert IsSolution(g, solver.best);
    }
  }
}
