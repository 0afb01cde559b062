/** Claude.cpp: backtracking over the list of empty cells in row-major order,
    keeping the chosen turrets in a list that is pushed before and popped
    after each recursive call. Rays stop at walls and outposts. Before the
    search, outposts that cannot have enough empty neighbours make the answer
    -1, and cells that only one empty cell can see are marked so that the
    search tries placing a turret there first. */
module Claude {
  import opened GridModel
  import opened Placement

  const INF := 1000000000

  /** Rays stop at walls and outposts. */
  const Rule := WallOrOutpost

  /** No wall or outpost strictly between columns y1 and y2 of row x. */
  predicate RowClear(g: Grid, x: int, y1: int, y2: int)
    requires g.Rect() && 0 <= x < g.R && 0 <= y1 < g.C && 0 <= y2 < g.C
  {
    forall col :: Min(y1, y2) < col < Max(y1, y2) ==> !Stops(Rule, g.cells[x][col])
  }

  /** No wall or outpost strictly between rows x1 and x2 of column y. */
  predicate ColClear(g: Grid, y: int, x1: int, x2: int)
    requires g.Rect() && 0 <= y < g.C && 0 <= x1 < g.R && 0 <= x2 < g.R
  {
    forall row :: Min(x1, x2) < row < Max(x1, x2) ==> !Stops(Rule, g.cells[row][y])
  }

  /** The line test of conflictsWithExisting and getOptimalCandidates: p and q
      share a row or a column with no wall or outpost strictly between them. */
  predicate InLine(g: Grid, p: Cell, q: Cell)
    requires g.Rect() && g.In(p) && g.In(q)
  {
    (p.0 == q.0 && RowClear(g, p.0, p.1, q.1)) || (p.1 == q.1 && ColClear(g, p.1, p.0, q.0))
  }

  /** The line test is sight along the rays, when the far cell is one a ray
      can enter. */
  lemma InLineIsSight(g: Grid, p: Cell, q: Cell)
    requires g.Rect() && g.In(p) && g.In(q) && !Stops(Rule, g.At(q))
    ensures InLine(g, p, q) <==> g.Sees(Rule, p, q)
  {
    if p != q && (p.0 == q.0 || p.1 == q.1) {
      var d, k := DirTo(p, q), Dist(p, q);
      DirStep(p, q);
      ClearRayIff(g, Rule, p, d, k);
      if InLine(g, p, q) {
        forall j | 1 <= j <= k
          ensures !g.Blocked(Rule, Step(p, d, j))
        {
          var s := Step(p, d, j);
          if j < k {
            if d == 0 || d == 2 {
              assert Min(p.1, q.1) < s.1 < Max(p.1, q.1);
            } else {
              assert Min(p.0, q.0) < s.0 < Max(p.0, q.0);
            }
          }
        }
      }
      if g.Sees(Rule, p, q) {
        if d == 0 || d == 2 {
          forall col | Min(p.1, q.1) < col < Max(p.1, q.1)
            ensures !Stops(Rule, g.cells[p.0][col])
          {
            var j := if d == 0 then col - p.1 else p.1 - col;
            assert Step(p, d, j) == (p.0, col);
          }
        } else {
          forall row | Min(p.0, q.0) < row < Max(p.0, q.0)
            ensures !Stops(Rule, g.cells[row][p.1])
          {
            var j := if d == 1 then row - p.0 else p.0 - row;
            assert Step(p, d, j) == (row, p.1);
          }
        }
      }
    }
  }

  /** A placement Claude.cpp accepts: turrets on empty cells, none in sight of
      another, every empty cell seen, and every outpost with exactly its
      digit's number of adjacent turrets. */
  ghost predicate IsSolution(g: Grid, S: set<Cell>)
    requires g.Rect()
  {
    && (forall p :: p in S ==> g.IsEmpty(p))
    && Independent(g, Rule, S)
    && AllSeen(g, Rule, S)
    && OutpostsMet(g, S)
  }

  /** The cells of a turret list. */
  ghost function Elems(ts: seq<Cell>): set<Cell>
  {
    set t | t in ts
  }

  predicate Distinct(ts: seq<Cell>)
  {
    forall i, j :: 0 <= i < j < |ts| ==> ts[i] != ts[j]
  }

  lemma {:induction false} DistinctCard(ts: seq<Cell>)
    requires Distinct(ts)
    ensures |Elems(ts)| == |ts|
  {
    if ts != [] {
      var s := ts[..|ts| - 1];
      DistinctCard(s);
      assert Elems(ts) == Elems(s) + {ts[|ts| - 1]};
    }
  }

  /** How many turrets of the list are adjacent to o. */
  ghost function AdjCount(ts: seq<Cell>, o: Cell): nat
  {
    if ts == [] then 0
    else AdjCount(ts[..|ts| - 1], o) + (if Adjacent(ts[|ts| - 1], o) then 1 else 0)
  }

  /** Counting adjacent turrets one turret at a time, as outpostsSatisfied
      does, gives the number of an outpost's neighbours holding a turret. */
  lemma {:induction false} AdjCountIsNeighbours(g: Grid, ts: seq<Cell>, o: Cell)
    requires Distinct(ts)
    ensures AdjCount(ts, o) == g.NeighboursIn(o, Elems(ts), 4)
  {
    if ts == [] {
      assert Elems(ts) == {};
      NoNeighbours(g, o, 4);
    } else {
      var s, t := ts[..|ts| - 1], ts[|ts| - 1];
      AdjCountIsNeighbours(g, s, o);
      assert Elems(ts) == Elems(s) + {t};
      assert t !in Elems(s);
      NeighboursAdd(g, o, Elems(s), t);
    }
  }

  lemma NoNeighbours(g: Grid, o: Cell, n: int)
    requires 0 <= n <= 4
    ensures g.NeighboursIn(o, {}, n) == 0
  {
  }

  /** The cells a turret at t can be adjacent to are its four steps. */
  lemma OneTurretNeighbours(g: Grid, t: Cell, o: Cell)
    ensures g.NeighboursIn(t, {o}, 4) == if Adjacent(t, o) then 1 else 0
  {
    NoNeighbours(g, t, 4);
    NeighboursAdd(g, t, {}, o);
    assert {} + {o} == {o};
  }

  class Solver {
    const g: Grid
    /** The empty cells in row-major order. */
    const emptyCells: seq<Cell>
    const outposts: seq<Cell>
    /** The turrets placed on the current search path. */
    var turrets: seq<Cell>
    var minTurrets: int
    /** A placement of size minTurrets, once one has been found. */
    ghost var best: set<Cell>

    /** The lists main builds while reading the grid. */
    ghost predicate Tables()
    {
      && g.WellFormed()
      && (forall m :: 0 <= m < |emptyCells| ==> g.IsEmpty(emptyCells[m]))
      && (forall p :: g.IsEmpty(p) ==> p in emptyCells)
      && (forall m, n :: 0 <= m < n < |emptyCells| ==> Before(emptyCells[m], emptyCells[n]))
      && (forall m :: 0 <= m < |outposts| ==> g.IsOutpost(outposts[m]))
      && (forall o :: g.IsOutpost(o) ==> o in outposts)
    }

    ghost predicate Valid()
      reads this
    {
      && Tables()
      && minTurrets <= INF
      && (minTurrets < INF ==> IsSolution(g, best) && |best| == minTurrets)
    }

    /** The reading loop of main: the empty cells and the outposts, each in
        row-major order. */
    constructor (grid: Grid)
      requires grid.WellFormed()
      ensures g == grid && Tables() && turrets == [] && minTurrets == INF
    {
      var es: seq<Cell> := [];
      var ops: seq<Cell> := [];
      for i := 0 to grid.R
        invariant forall m :: 0 <= m < |es| ==> grid.IsEmpty(es[m]) && es[m].0 < i
        invariant forall p :: grid.IsEmpty(p) && p.0 < i ==> p in es
        invariant forall m, n :: 0 <= m < n < |es| ==> Before(es[m], es[n])
        invariant forall m :: 0 <= m < |ops| ==> grid.IsOutpost(ops[m])
        invariant forall o :: grid.IsOutpost(o) && o.0 < i ==> o in ops
      {
        for j := 0 to grid.C
          invariant forall m :: 0 <= m < |es| ==> grid.IsEmpty(es[m]) && Before(es[m], (i, j))
          invariant forall p :: grid.IsEmpty(p) && Before(p, (i, j)) ==> p in es
          invariant forall m, n :: 0 <= m < n < |es| ==> Before(es[m], es[n])
          invariant forall m :: 0 <= m < |ops| ==> grid.IsOutpost(ops[m])
          invariant forall o :: grid.IsOutpost(o) && Before(o, (i, j)) ==> o in ops
        {
          if grid.cells[i][j] == '.' {
            es := es + [(i, j)];
          } else if IsOutpostChar(grid.cells[i][j]) {
            ops := ops + [(i, j)];
          }
        }
      }
      g, emptyCells, outposts := grid, es, ops;
      turrets := [];
      minTurrets := INF;
      best := {};
    }

    /** getVisibility: for each direction, the list of cells a turret at
        (x, y) sees, starting with its own cell and walking until the grid's
        edge, a wall or an outpost. */
    method GetVisibility(x: int, y: int) returns (visible: seq<seq<Cell>>)
      requires g.Rect() && g.In((x, y))
      ensures |visible| == 4
      ensures forall d :: 0 <= d < 4 ==> |visible[d]| >= 1 && visible[d][0] == (x, y)
      ensures forall d, k :: 0 <= d < 4 && 1 <= k < |visible[d]| ==>
        g.In(visible[d][k]) && !Stops(Rule, g.At(visible[d][k]))
      ensures forall q :: g.Sees(Rule, (x, y), q) <==>
        exists d, k :: 0 <= d < 4 && 0 <= k < |visible[d]| && visible[d][k] == q
      ensures forall d :: 0 <= d < 4 ==> RayList(g, (x, y), d, visible[d])
    {
      var p := (x, y);
      visible := [];
      for d := 0 to 4
        invariant |visible| == d
        invariant forall e :: 0 <= e < d ==> RayList(g, p, e, visible[e])
      {
        var list := [p];
        var n := p;
        while true
          invariant 1 <= |list| && n == Step(p, d, |list| - 1)
          invariant forall k :: 0 <= k < |list| ==> list[k] == Step(p, d, k)
          invariant g.ClearRay(Rule, p, d, |list| - 1)
          decreases Room(g.R, g.C, p, d) - |list|
        {
          StepNext(p, d, |list| - 1);
          n := Step(n, d, 1);
          if !g.In(n) || Stops(Rule, g.cells[n.0][n.1]) {
            break;
          }
          list := list + [n];
        }
        visible := visible + [list];
      }
      forall d, k | 0 <= d < 4 && 1 <= k < |visible[d]|
        ensures g.In(visible[d][k]) && !Stops(Rule, g.At(visible[d][k]))
      {
        ClearRayAt(g, Rule, p, d, |visible[d]| - 1, k);
      }
      forall q
        ensures g.Sees(Rule, p, q) <==> exists d, k :: 0 <= d < 4 && 0 <= k < |visible[d]| && visible[d][k] == q
      {
        if g.Sees(Rule, p, q) {
          SightIsVisible(g, p, visible, q);
        }
        if exists d, k :: 0 <= d < 4 && 0 <= k < |visible[d]| && visible[d][k] == q {
          VisibleIsSight(g, p, visible, q);
        }
      }
    }

    /** The row scan of the line test: true when a wall or outpost lies
        strictly between columns y1 and y2 of row x. */
    method RowBlocked(x: int, y1: int, y2: int) returns (blocked: bool)
      requires g.Rect() && 0 <= x < g.R && 0 <= y1 < g.C && 0 <= y2 < g.C
      ensures blocked <==> !RowClear(g, x, y1, y2)
    {
      var col := Min(y1, y2) + 1;
      while col < Max(y1, y2)
        invariant Min(y1, y2) < col <= Max(y1, y2) || col == Min(y1, y2) + 1
        invariant forall c :: Min(y1, y2) < c < col ==> !Stops(Rule, g.cells[x][c])
        decreases Max(y1, y2) - col
      {
        if g.cells[x][col] == '#' || IsOutpostChar(g.cells[x][col]) {
          return true;
        }
        col := col + 1;
      }
      return false;
    }

    /** The column scan of the line test. */
    method ColBlocked(y: int, x1: int, x2: int) returns (blocked: bool)
      requires g.Rect() && 0 <= y < g.C && 0 <= x1 < g.R && 0 <= x2 < g.R
      ensures blocked <==> !ColClear(g, y, x1, x2)
    {
      var row := Min(x1, x2) + 1;
      while row < Max(x1, x2)
        invariant Min(x1, x2) < row <= Max(x1, x2) || row == Min(x1, x2) + 1
        invariant forall r :: Min(x1, x2) < r < row ==> !Stops(Rule, g.cells[r][y])
        decreases Max(x1, x2) - row
      {
        if g.cells[row][y] == '#' || IsOutpostChar(g.cells[row][y]) {
          return true;
        }
        row := row + 1;
      }
      return false;
    }

    /** conflictsWithExisting: some turret of the list is in line with (x, y). */
    method ConflictsWithExisting(ts: seq<Cell>, x: int, y: int) returns (conflict: bool)
      requires g.Rect() && g.In((x, y)) && forall i :: 0 <= i < |ts| ==> g.In(ts[i])
      ensures conflict <==> exists i :: 0 <= i < |ts| && InLine(g, (x, y), ts[i])
    {
      for i := 0 to |ts|
        invariant forall i' :: 0 <= i' < i ==> !InLine(g, (x, y), ts[i'])
      {
        var t := ts[i];
        if x == t.0 {
          var blocked := RowBlocked(x, y, t.1);
          if !blocked {
            return true;
          }
        }
        if y == t.1 {
          var blocked := ColBlocked(y, x, t.0);
          if !blocked {
            return true;
          }
        }
      }
      return false;
    }

    /** allCellsCovered: marks each turret's cell and rays in a fresh matrix,
        then checks that every empty cell is marked. */
    method AllCellsCovered(ts: seq<Cell>) returns (ok: bool)
      requires g.Rect() && forall i :: 0 <= i < |ts| ==> g.In(ts[i])
      ensures ok <==> AllSeen(g, Rule, Elems(ts))
    {
      var covered := new bool[g.R, g.C]((i, j) => false);
      for i := 0 to |ts|
        invariant forall a, b :: 0 <= a < g.R && 0 <= b < g.C ==>
          covered[a, b] == Covered(g, Rule, Elems(ts[..i]), (a, b))
      {
        MarkSight(g, Rule, covered, ts[i]);
        assert Elems(ts[..i + 1]) == Elems(ts[..i]) + {ts[i]};
        forall a, b | 0 <= a < g.R && 0 <= b < g.C
          ensures covered[a, b] == Covered(g, Rule, Elems(ts[..i + 1]), (a, b))
        {
          CoveredAdd(g, Rule, Elems(ts[..i]), ts[i], (a, b));
        }
      }
      assert ts[..|ts|] == ts;
      ok := AllEmptyMarked(g, covered);
    }

    /** outpostsSatisfied: counts, in a fresh matrix, the turrets next to each
        outpost, then compares every outpost's count with its digit. */
    method OutpostsSatisfied(ts: seq<Cell>) returns (ok: bool)
      requires Tables() && Distinct(ts)
      ensures ok <==> OutpostsMet(g, Elems(ts))
    {
      var adjCount := new int[g.R, g.C]((i, j) => 0);
      for i := 0 to |ts|
        invariant forall a, b :: 0 <= a < g.R && 0 <= b < g.C ==>
          adjCount[a, b] == if IsOutpostChar(g.cells[a][b]) then AdjCount(ts[..i], (a, b)) else 0
      {
        CountNeighbours(ts[i], adjCount);
        assert ts[..i + 1][..i] == ts[..i];
      }
      assert ts[..|ts|] == ts;
      forall o | g.IsOutpost(o)
        ensures adjCount[o.0, o.1] == g.NeighboursIn(o, Elems(ts), 4)
      {
        AdjCountIsNeighbours(g, ts, o);
      }
      for m := 0 to |outposts|
        invariant forall m' :: 0 <= m' < m ==> adjCount[outposts[m'].0, outposts[m'].1] == Digit(g.At(outposts[m']))
      {
        var o := outposts[m];
        if adjCount[o.0, o.1] != Digit(g.cells[o.0][o.1]) {
          return false;
        }
      }
      forall o | g.IsOutpost(o)
        ensures g.NeighboursIn(o, Elems(ts), 4) == Digit(g.At(o))
      {
        ghost var m :| 0 <= m < |outposts| && outposts[m] == o;
      }
      return true;
    }

    /** The inner loop of outpostsSatisfied for the turret t: each of its
        four neighbours that is an outpost gets one more count. */
    method CountNeighbours(t: Cell, adjCount: array2<int>)
      requires g.Rect() && adjCount.Length0 == g.R && adjCount.Length1 == g.C
      modifies adjCount
      ensures forall a, b :: 0 <= a < g.R && 0 <= b < g.C ==>
        adjCount[a, b] == old(adjCount[a, b]) + if IsOutpostChar(g.cells[a][b]) && Adjacent(t, (a, b)) then 1 else 0
    {
      for d := 0 to 4
        invariant forall a, b :: 0 <= a < g.R && 0 <= b < g.C ==>
          adjCount[a, b] == old(adjCount[a, b]) + if IsOutpostChar(g.cells[a][b]) then g.NeighboursIn(t, {(a, b)}, d) else 0
      {
        var n := Step(t, d, 1);
        if 0 <= n.0 < g.R && 0 <= n.1 < g.C && IsOutpostChar(g.cells[n.0][n.1]) {
          adjCount[n.0, n.1] := adjCount[n.0, n.1] + 1;
        }
      }
      forall a, b | 0 <= a < g.R && 0 <= b < g.C
        ensures g.NeighboursIn(t, {(a, b)}, 4) == if Adjacent(t, (a, b)) then 1 else 0
      {
        OneTurretNeighbours(g, t, (a, b));
      }
    }

    /** checkOutpostRequirements: every outpost has at least as many empty
        neighbours as its digit asks for. */
    method CheckOutpostRequirements() returns (ok: bool)
      requires Tables()
      ensures ok <==> forall m :: 0 <= m < |outposts| ==>
        Digit(g.At(outposts[m])) <= g.NeighboursIn(outposts[m], g.EmptyCells(), 4)
    {
      for m := 0 to |outposts|
        invariant forall m' :: 0 <= m' < m ==>
          Digit(g.At(outposts[m'])) <= g.NeighboursIn(outposts[m'], g.EmptyCells(), 4)
      {
        var o := outposts[m];
        var required := Digit(g.cells[o.0][o.1]);
        var possibleAdj := 0;
        for d := 0 to 4
          invariant possibleAdj == g.NeighboursIn(o, g.EmptyCells(), d)
        {
          var n := Step(o, d, 1);
          if 0 <= n.0 < g.R && 0 <= n.1 < g.C && g.cells[n.0][n.1] == '.' {
            possibleAdj := possibleAdj + 1;
          }
        }
        if possibleAdj < required {
          return false;
        }
      }
      return true;
    }

    /** When the pre-check fails there is no solution at all. */
    lemma PrecheckSound()
      requires Tables()
      requires exists m :: 0 <= m < |outposts| && g.NeighboursIn(outposts[m], g.EmptyCells(), 4) < Digit(g.At(outposts[m]))
      ensures forall S :: !IsSolution(g, S)
    {
      var m :| 0 <= m < |outposts| && g.NeighboursIn(outposts[m], g.EmptyCells(), 4) < Digit(g.At(outposts[m]));
      forall S | IsSolution(g, S)
        ensures false
      {
        assert S <= g.EmptyCells();
        NeighboursMono(g, outposts[m], S, g.EmptyCells(), 4);
      }
    }

    /** The empty cells of the list that are in line with q. */
    ghost function Seers(q: Cell): set<Cell>
      requires Tables() && g.In(q)
    {
      SeersUpTo(q, |emptyCells|)
    }

    /** The empty cells among the first k of the list that are in line with
        q. */
    ghost function SeersUpTo(q: Cell, k: int): set<Cell>
      requires Tables() && g.In(q) && 0 <= k <= |emptyCells|
    {
      set m | 0 <= m < k && InLine(g, emptyCells[m], q) :: emptyCells[m]
    }

    lemma SeersUpToNext(q: Cell, k: int)
      requires Tables() && g.In(q) && 0 <= k < |emptyCells|
      ensures SeersUpTo(q, k + 1)
              == SeersUpTo(q, k) + if InLine(g, emptyCells[k], q) then {emptyCells[k]} else {}
    {
    }

    /** canSee in getOptimalCandidates: the row test when (x, y) and (i, j)
        share a row, else the column test when they share a column. */
    method CanSee(x: int, y: int, i: int, j: int) returns (canSee: bool)
      requires g.Rect() && g.In((x, y)) && g.In((i, j))
      ensures canSee <==> InLine(g, (x, y), (i, j))
    {
      canSee := false;
      if x == i {
        var blocked := RowBlocked(i, j, y);
        if !blocked {
          canSee := true;
        }
      } else if y == j {
        var blocked := ColBlocked(j, i, x);
        if !blocked {
          canSee := true;
        }
      }
    }

    /** The empty cell (i, j) is seen by exactly one empty cell, (a, b). */
    ghost predicate OnlySeer(a: int, b: int, i: int, j: int)
      requires Tables() && 0 <= i < g.R && 0 <= j < g.C
    {
      g.cells[i][j] == '.' && Seers((i, j)) == {(a, b)}
    }

    /** getOptimalCandidates: for every empty cell, the set of empty cells
        that can see it; a cell is marked when it is the only member of such
        a set. */
    method GetOptimalCandidates() returns (candidates: array2<bool>)
      requires Tables()
      ensures fresh(candidates) && candidates.Length0 == g.R && candidates.Length1 == g.C
      ensures forall a, b :: 0 <= a < g.R && 0 <= b < g.C ==>
        (candidates[a, b] <==> exists i, j :: 0 <= i < g.R && 0 <= j < g.C && OnlySeer(a, b, i, j))
    {
      var uniqueCoverage := CollectAllSeers();
      candidates := new bool[g.R, g.C]((i, j) => false);
      for i := 0 to g.R
        invariant forall a, b :: 0 <= a < g.R && 0 <= b < g.C ==>
          uniqueCoverage[a, b] == if g.cells[a][b] == '.' then Seers((a, b)) else {}
        invariant forall a, b :: 0 <= a < g.R && 0 <= b < g.C ==>
          (candidates[a, b] <==> exists i', j' :: 0 <= i' < i && 0 <= j' < g.C && OnlySeer(a, b, i', j'))
      {
        MarkRow(i, uniqueCoverage, candidates);
      }
    }

    /** The first pass of getOptimalCandidates: the seers of every empty
        cell, and the empty set elsewhere. */
    method CollectAllSeers() returns (uniqueCoverage: array2<set<Cell>>)
      requires Tables()
      ensures fresh(uniqueCoverage) && uniqueCoverage.Length0 == g.R && uniqueCoverage.Length1 == g.C
      ensures forall a, b :: 0 <= a < g.R && 0 <= b < g.C ==>
        uniqueCoverage[a, b] == if g.cells[a][b] == '.' then Seers((a, b)) else {}
    {
      uniqueCoverage := new set<Cell>[g.R, g.C]((i, j) => {});
      for i := 0 to g.R
        invariant forall a, b :: 0 <= a < g.R && 0 <= b < g.C ==>
          uniqueCoverage[a, b] == if a < i && g.cells[a][b] == '.' then Seers((a, b)) else {}
      {
        for j := 0 to g.C
          invariant forall a, b :: 0 <= a < g.R && 0 <= b < g.C ==>
            uniqueCoverage[a, b] == if (a < i || (a == i && b < j)) && g.cells[a][b] == '.' then Seers((a, b)) else {}
        {
          if g.cells[i][j] != '.' {
            continue;
          }
          CollectSeers(i, j, uniqueCoverage);
        }
      }
    }

    /** One row of the second pass of getOptimalCandidates: the only seer of
        each empty cell of row i that has just one is marked. */
    method MarkRow(i: int, uniqueCoverage: array2<set<Cell>>, candidates: array2<bool>)
      requires Tables() && 0 <= i < g.R
      requires uniqueCoverage.Length0 == g.R && uniqueCoverage.Length1 == g.C
      requires candidates.Length0 == g.R && candidates.Length1 == g.C
      requires forall a, b :: 0 <= a < g.R && 0 <= b < g.C ==>
        uniqueCoverage[a, b] == if g.cells[a][b] == '.' then Seers((a, b)) else {}
      modifies candidates
      ensures forall a, b :: 0 <= a < g.R && 0 <= b < g.C ==>
        (candidates[a, b] <==> old(candidates[a, b]) || exists j :: 0 <= j < g.C && OnlySeer(a, b, i, j))
    {
      for j := 0 to g.C
        invariant forall a, b :: 0 <= a < g.R && 0 <= b < g.C ==>
          (candidates[a, b] <==> old(candidates[a, b]) || exists j' :: 0 <= j' < j && OnlySeer(a, b, i, j'))
      {
        if g.cells[i][j] == '.' && |uniqueCoverage[i, j]| == 1 {
          var pos :| pos in uniqueCoverage[i, j];
          SingletonIs(uniqueCoverage[i, j], pos);
          candidates[pos.0, pos.1] := true;
        }
        forall a, b | 0 <= a < g.R && 0 <= b < g.C
          ensures (exists j' :: 0 <= j' < j + 1 && OnlySeer(a, b, i, j'))
                  <==> (exists j' :: 0 <= j' < j && OnlySeer(a, b, i, j')) || OnlySeer(a, b, i, j)
          ensures OnlySeer(a, b, i, j) <==> g.cells[i][j] == '.' && uniqueCoverage[i, j] == {(a, b)}
        {
          assert |{(a, b)}| == 1;
          if OnlySeer(a, b, i, j) {
            assert 0 <= j < j + 1 && OnlySeer(a, b, i, j);
          }
        }
      }
    }

    /** The inner loop of getOptimalCandidates for the empty cell (i, j):
        collects the empty cells that can see it. */
    method CollectSeers(i: int, j: int, uniqueCoverage: array2<set<Cell>>)
      requires Tables() && g.In((i, j))
      requires uniqueCoverage.Length0 == g.R && uniqueCoverage.Length1 == g.C
      modifies uniqueCoverage
      ensures forall a, b :: 0 <= a < g.R && 0 <= b < g.C ==>
        uniqueCoverage[a, b] == if (a, b) == (i, j) then old(uniqueCoverage[a, b]) + Seers((i, j)) else old(uniqueCoverage[a, b])
    {
      ghost var start := uniqueCoverage[i, j];
      for k := 0 to |emptyCells|
        invariant forall a, b :: 0 <= a < g.R && 0 <= b < g.C && (a, b) != (i, j) ==>
          uniqueCoverage[a, b] == old(uniqueCoverage[a, b])
        invariant uniqueCoverage[i, j] == start + SeersUpTo((i, j), k)
      {
        var pos := emptyCells[k];
        var canSee := CanSee(pos.0, pos.1, i, j);
        if canSee {
          uniqueCoverage[i, j] := uniqueCoverage[i, j] + {pos};
        }
        SeersUpToNext((i, j), k);
      }
    }

    /** A cell marked by getOptimalCandidates is an empty cell that no other
        empty cell can see, so every solution places a turret on it. */
    lemma MarkedIsForced(i: int, j: int, a: int, b: int)
      requires Tables() && 0 <= i < g.R && 0 <= j < g.C && g.cells[i][j] == '.'
      requires Seers((i, j)) == {(a, b)}
      ensures (a, b) == (i, j) && g.IsEmpty((a, b))
      ensures forall p :: g.IsEmpty(p) && p != (a, b) ==> !g.Sees(Rule, p, (a, b))
      ensures forall S :: IsSolution(g, S) ==> (a, b) in S
    {
      var q := (i, j);
      assert g.IsEmpty(q);
      var m :| 0 <= m < |emptyCells| && emptyCells[m] == q;
      assert InLine(g, q, q);
      assert q in Seers(q);
      forall p | g.IsEmpty(p) && g.Sees(Rule, p, q)
        ensures p == q
      {
        InLineIsSight(g, p, q);
        var n :| 0 <= n < |emptyCells| && emptyCells[n] == p;
        assert p in Seers(q);
      }
      forall S | IsSolution(g, S)
        ensures q in S
      {
        assert Covered(g, Rule, S, q);
      }
    }

    /** The empty cells before position k of the list. */
    ghost function Prefix(k: int): set<Cell>
      requires 0 <= k <= |emptyCells|
    {
      set m | 0 <= m < k :: emptyCells[m]
    }

    /** S agrees with T on the first k empty cells. */
    ghost predicate Extends(S: set<Cell>, T: set<Cell>, k: int)
      requires 0 <= k <= |emptyCells|
    {
      T <= S && forall m :: 0 <= m < k && emptyCells[m] in S ==> emptyCells[m] in T
    }

    /** The turret list holds distinct, mutually invisible cells from the
        first k empty cells. */
    ghost predicate PathOk(k: int)
      reads this
      requires Tables() && 0 <= k <= |emptyCells|
    {
      PathFits(turrets, k)
    }

    /** ts holds distinct, mutually invisible cells from the first k empty
        cells. */
    ghost predicate PathFits(ts: seq<Cell>, k: int)
      requires Tables() && 0 <= k <= |emptyCells|
    {
      && Distinct(ts)
      && (forall i :: 0 <= i < |ts| ==> g.IsEmpty(ts[i]))
      && (forall t :: t in ts ==> t in Prefix(k))
      && Independent(g, Rule, Elems(ts))
    }

    /** Pushing the cell at position idx, when no turret of the list is in
        line with it, keeps the list a valid path one position further. */
    lemma PushKeepsPath(ts: seq<Cell>, idx: int)
      requires Tables() && 0 <= idx < |emptyCells| && PathFits(ts, idx)
      requires !exists i :: 0 <= i < |ts| && InLine(g, emptyCells[idx], ts[i])
      ensures PathFits(ts + [emptyCells[idx]], idx + 1)
      ensures Elems(ts + [emptyCells[idx]]) == Elems(ts) + {emptyCells[idx]}
    {
      var e := emptyCells[idx];
      var ts' := ts + [e];
      assert e !in Prefix(idx);
      assert Prefix(idx + 1) == Prefix(idx) + {e};
      assert Elems(ts') == Elems(ts) + {e};
      forall i | 0 <= i < |ts|
        ensures !g.Sees(Rule, e, ts[i]) && !g.Sees(Rule, ts[i], e)
      {
        InLineIsSight(g, e, ts[i]);
        SeesSymmetric(g, Rule, e, ts[i]);
      }
      forall p, q | p in Elems(ts') && q in Elems(ts') && p != q
        ensures !g.Sees(Rule, p, q)
      {
        if p == e {
          var i :| 0 <= i < |ts| && ts[i] == q;
        } else if q == e {
          var i :| 0 <= i < |ts| && ts[i] == p;
        }
      }
    }

    /** When a turret of the list is in line with the cell at position idx, no
        solution holds both. */
    lemma ConflictExcludes(ts: seq<Cell>, idx: int)
      requires Tables() && 0 <= idx < |emptyCells| && PathFits(ts, idx)
      requires exists i :: 0 <= i < |ts| && InLine(g, emptyCells[idx], ts[i])
      ensures !exists S :: IsSolution(g, S) && Elems(ts) + {emptyCells[idx]} <= S
    {
      var e := emptyCells[idx];
      var i :| 0 <= i < |ts| && InLine(g, e, ts[i]);
      assert ts[i] in Prefix(idx);
      InLineIsSight(g, e, ts[i]);
      assert ts[i] != e;
    }

    /** backtrack: at position idx of the empty-cell list, tries both placing
        a turret there (when it conflicts with no turret on the path) and
        leaving it empty, the placement first when the cell is marked. The
        turret list is the same on return, minTurrets has not grown and is
        still the size of an accepted placement, and it is at most the size
        of every solution that agrees with the list on the first idx empty
        cells. */
    method Backtrack(idx: int, candidates: array2<bool>)
      requires Valid() && 0 <= idx <= |emptyCells| && PathOk(idx)
      requires candidates.Length0 == g.R && candidates.Length1 == g.C
      modifies this
      ensures Valid() && turrets == old(turrets) && minTurrets <= old(minTurrets)
      ensures forall S :: IsSolution(g, S) && Extends(S, Elems(turrets), idx) ==> minTurrets <= |S|
      decreases |emptyCells| - idx, 3
    {
      ghost var T := Elems(turrets);
      if |turrets| >= minTurrets {
        DistinctCard(turrets);
        forall S | IsSolution(g, S) && Extends(S, T, idx)
          ensures minTurrets <= |S|
        {
          SubsetCard(T, S);
        }
        return;
      }

      if idx == |emptyCells| {
        Finish();
        return;
      }

      var e := emptyCells[idx];
      if candidates[e.0, e.1] {
        PlaceThenSkip(idx, candidates);
      } else {
        SkipThenPlace(idx, candidates);
      }
    }

    /** The two branches of backtrack at a cell that is not marked: leave it
        empty first, then try a turret there. */
    method SkipThenPlace(idx: int, candidates: array2<bool>)
      requires Valid() && 0 <= idx < |emptyCells| && PathOk(idx)
      requires candidates.Length0 == g.R && candidates.Length1 == g.C
      modifies this
      ensures Valid() && turrets == old(turrets) && minTurrets <= old(minTurrets)
      ensures forall S :: IsSolution(g, S) && Extends(S, Elems(turrets), idx) ==> minTurrets <= |S|
      decreases |emptyCells| - idx, 2
    {
      ghost var T := Elems(turrets);
      Backtrack(idx + 1, candidates);
      ghost var m1 := minTurrets;
      TryTurret(idx, candidates);
      forall S | IsSolution(g, S) && Extends(S, T, idx)
        ensures minTurrets <= |S|
      {
        ExtendsStep(S, T, idx);
      }
    }

    /** The two branches of backtrack at a marked cell: try a turret there
        first, then leave it empty. */
    method PlaceThenSkip(idx: int, candidates: array2<bool>)
      requires Valid() && 0 <= idx < |emptyCells| && PathOk(idx)
      requires candidates.Length0 == g.R && candidates.Length1 == g.C
      modifies this
      ensures Valid() && turrets == old(turrets) && minTurrets <= old(minTurrets)
      ensures forall S :: IsSolution(g, S) && Extends(S, Elems(turrets), idx) ==> minTurrets <= |S|
      decreases |emptyCells| - idx, 2
    {
      ghost var T := Elems(turrets);
      TryTurret(idx, candidates);
      ghost var m1 := minTurrets;
      Backtrack(idx + 1, candidates);
      forall S | IsSolution(g, S) && Extends(S, T, idx)
        ensures minTurrets <= |S|
      {
        ExtendsStep(S, T, idx);
      }
    }

    /** Moving past position idx splits the extensions of T into those that
        hold the cell there and those that do not. */
    lemma ExtendsStep(S: set<Cell>, T: set<Cell>, idx: int)
      requires 0 <= idx < |emptyCells| && Extends(S, T, idx)
      ensures emptyCells[idx] in S ==> Extends(S, T + {emptyCells[idx]}, idx + 1)
      ensures emptyCells[idx] !in S ==> Extends(S, T, idx + 1)
    {
    }

    /** The end of the list in backtrack: a turret list that covers every
        empty cell and satisfies every outpost becomes the best placement. */
    method Finish()
      requires Valid() && PathOk(|emptyCells|) && |turrets| < minTurrets
      modifies this
      ensures Valid() && turrets == old(turrets) && minTurrets <= old(minTurrets)
      ensures forall S :: IsSolution(g, S) && Extends(S, Elems(turrets), |emptyCells|) ==> minTurrets <= |S|
    {
      ghost var T := Elems(turrets);
      assert forall t :: t in T ==> g.IsEmpty(t);
      var ok := AllCellsCovered(turrets);
      if ok {
        ok := OutpostsSatisfied(turrets);
      }
      if ok {
        minTurrets := Min(minTurrets, |turrets|);
        best := T;
        DistinctCard(turrets);
      }
      forall S | IsSolution(g, S) && Extends(S, T, |emptyCells|)
        ensures S == T
      {
        forall p | p in S
          ensures p in T
        {
          var m :| 0 <= m < |emptyCells| && emptyCells[m] == p;
        }
      }
      DistinctCard(turrets);
    }

    /** The placement branch of backtrack at position idx: unless a turret on
        the path is in line with the cell, push it, search on, and pop it.
        Afterwards minTurrets is at most the size of every solution that
        agrees with the path and also holds this cell. */
    method TryTurret(idx: int, candidates: array2<bool>)
      requires Valid() && 0 <= idx < |emptyCells| && PathOk(idx)
      requires candidates.Length0 == g.R && candidates.Length1 == g.C
      modifies this
      ensures Valid() && turrets == old(turrets) && minTurrets <= old(minTurrets)
      ensures forall S :: IsSolution(g, S) && Extends(S, Elems(turrets) + {emptyCells[idx]}, idx + 1) ==> minTurrets <= |S|
      decreases |emptyCells| - idx, 1
    {
      var e := emptyCells[idx];
      var conflict := ConflictsWithExisting(turrets, e.0, e.1);
      if conflict {
        ConflictExcludes(turrets, idx);
      } else {
        PlaceTurret(idx, candidates);
      }
    }

    /** The turret goes on the idx-th empty cell for the rest of the search,
        and comes off again afterwards. */
    method PlaceTurret(idx: int, candidates: array2<bool>)
      requires Valid() && 0 <= idx < |emptyCells| && PathOk(idx)
      requires candidates.Length0 == g.R && candidates.Length1 == g.C
      requires !exists i :: 0 <= i < |turrets| && InLine(g, emptyCells[idx], turrets[i])
      modifies this
      ensures Valid() && turrets == old(turrets) && minTurrets <= old(minTurrets)
      ensures forall S :: IsSolution(g, S) && Extends(S, Elems(turrets) + {emptyCells[idx]}, idx + 1) ==> minTurrets <= |S|
      decreases |emptyCells| - idx, 0
    {
      var e := emptyCells[idx];
      ghost var saved := turrets;
      PushKeepsPath(turrets, idx);
      turrets := turrets + [e];
      Backtrack(idx + 1, candidates);
      turrets := turrets[..|turrets| - 1];
      assert turrets == saved;
    }

    /** solve: the pre-check, the marks, then the search from an empty list;
        INF becomes -1. */
    method Solve() returns (result: int)
      requires Tables()
      modifies this
      ensures result >= -1
      ensures result >= 0 ==> (exists S :: IsSolution(g, S) && |S| == result)
                              && forall S :: IsSolution(g, S) ==> result <= |S|
      ensures result == -1 ==> forall S :: IsSolution(g, S) ==> INF <= |S|
    {
      var feasible := CheckOutpostRequirements();
      if !feasible {
        PrecheckSound();
        return -1;
      }
      var candidates := GetOptimalCandidates();
      result := Search(candidates);
    }

    /** The search part of solve: backtrack from an empty list; INF becomes
        -1. */
    method Search(candidates: array2<bool>) returns (result: int)
      requires Tables() && candidates.Length0 == g.R && candidates.Length1 == g.C
      modifies this
      ensures result >= -1
      ensures result >= 0 ==> (exists S :: IsSolution(g, S) && |S| == result)
                              && forall S :: IsSolution(g, S) ==> result <= |S|
      ensures result == -1 ==> forall S :: IsSolution(g, S) ==> INF <= |S|
    {
      minTurrets := INF;
      best := {};
      turrets := [];
      Backtrack(0, candidates);
      assert Elems(turrets) == {};
      forall S | IsSolution(g, S)
        ensures minTurrets <= |S|
      {
        assert Extends(S, Elems(turrets), 0);
      }
      result := if minTurrets == INF then -1 else minTurrets;
      if result >= 0 {
        assert IsSolution(g, best) && |best| == result;
      }
    }
  }

  /** The per-test-case body of main without its input and output. */
  method Run(g: Grid) returns (result: int)
    requires g.WellFormed()
    ensures result >= -1
    ensures result >= 0 ==> (exists S :: IsSolution(g, S) && |S| == result)
                            && forall S :: IsSolution(g, S) ==> result <= |S|
    ensures result == -1 ==> forall S :: IsSolution(g, S) ==> INF <= |S|
  {
    var solver := new Solver(g);
    result := solver.Solve();
  }

  /** list is the walk of getVisibility from p in direction d. */
  ghost predicate RayList(g: Grid, p: Cell, d: int, list: seq<Cell>)
    requires g.Rect() && 0 <= d < 4
  {
    && 1 <= |list|
    && (forall k :: 0 <= k < |list| ==> list[k] == Step(p, d, k))
    && g.ClearRay(Rule, p, d, |list| - 1)
    && g.Blocked(Rule, Step(p, d, |list|))
  }

  /** Every cell seen from p is in one of the four lists. */
  lemma SightIsVisible(g: Grid, p: Cell, visible: seq<seq<Cell>>, q: Cell)
    requires g.Rect() && |visible| == 4
    requires forall d :: 0 <= d < 4 ==> RayList(g, p, d, visible[d])
    requires g.Sees(Rule, p, q)
    ensures exists d, k :: 0 <= d < 4 && 0 <= k < |visible[d]| && visible[d][k] == q
  {
    if q == p {
      assert visible[0][0] == q;
    } else {
      var d, k := DirTo(p, q), Dist(p, q);
      DirStep(p, q);
      RayStops(g, Rule, p, d, |visible[d]| - 1);
      assert visible[d][k] == q;
    }
  }

  /** Every cell of the four lists is seen from p. */
  lemma VisibleIsSight(g: Grid, p: Cell, visible: seq<seq<Cell>>, q: Cell)
    requires g.Rect() && |visible| == 4
    requires forall d :: 0 <= d < 4 ==> RayList(g, p, d, visible[d])
    requires exists d, k :: 0 <= d < 4 && 0 <= k < |visible[d]| && visible[d][k] == q
    ensures g.Sees(Rule, p, q)
  {
    var d, k :| 0 <= d < 4 && 0 <= k < |visible[d]| && visible[d][k] == q;
    ListSeen(g, p, d, visible[d], k);
  }

  lemma ListSeen(g: Grid, p: Cell, d: int, list: seq<Cell>, k: int)
    requires g.Rect() && 0 <= d < 4 && RayList(g, p, d, list) && 0 <= k < |list|
    ensures g.Sees(Rule, p, list[k])
  {
    if k > 0 {
      ClearRayPrefix(g, Rule, p, d, |list| - 1, k);
      RaySees(g, Rule, p, d, k);
    }
  }

  lemma SingletonIs<X>(s: set<X>, x: X)
    requires |s| == 1 && x in s
    ensures s == {x}
  {
    if y :| y in s && y != x {
      assert {x, y} <= s;
      SubsetCard({x, y}, s);
    }
  }
}
