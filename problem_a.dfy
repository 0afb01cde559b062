/** problemA.cpp, the tables its search works on. Every '.' cell is a
    candidate, numbered in row-major order. Each candidate has a coverage set
    (itself and the '.' cells its four rays reach before the first cell that
    is not '.') and a conflict set (its coverage without itself); each
    outpost lists the candidates next to it. A bitset of candidate indices is
    a set of integers. The file also holds the shortcut main takes for grids
    without walls or outposts. */
module ProblemA {
  import opened GridModel
  import opened Placement

  /** Rays stop at every cell that is not '.'. */
  const Rule := NonEmpty

  /** A placement problemA.cpp looks for: turrets on '.' cells, none in
      sight of another, every '.' cell seen, and every outpost with exactly
      its digit's number of adjacent turrets. */
  ghost predicate IsSolution(g: Grid, S: set<Cell>)
    requires g.Rect()
  {
    && (forall p :: p in S ==> g.IsEmpty(p))
    && Independent(g, Rule, S)
    && AllSeen(g, Rule, S)
    && OutpostsMet(g, S)
  }

  /** `isdigit`. */
  predicate IsDigit(ch: char) { '0' <= ch <= '9' }

  /** candIndex has one entry per cell. */
  predicate IndexShape(g: Grid, candIndex: seq<seq<int>>)
  {
    |candIndex| == g.R && forall i :: 0 <= i < g.R ==> |candIndex[i]| == g.C
  }

  /** candidates lists the '.' cells and candIndex is its inverse, -1 on
      every other cell. */
  ghost predicate Indexed(g: Grid, candidates: seq<Cell>, candIndex: seq<seq<int>>)
  {
    && g.Rect()
    && IndexShape(g, candIndex)
    && (forall k :: 0 <= k < |candidates| ==>
          g.IsEmpty(candidates[k]) && candIndex[candidates[k].0][candidates[k].1] == k)
    && (forall i, j :: 0 <= i < g.R && 0 <= j < g.C ==>
          if g.cells[i][j] == '.' then 0 <= candIndex[i][j] < |candidates| && candidates[candIndex[i][j]] == (i, j)
          else candIndex[i][j] == -1)
  }

  /** The candidate list and index matrix: the '.' cells in row-major order,
      and for each cell its position in that list or -1. */
  method IndexCandidates(g: Grid) returns (candidates: seq<Cell>, candIndex: seq<seq<int>>)
    requires g.Rect()
    ensures Indexed(g, candidates, candIndex)
    ensures forall k, l :: 0 <= k < l < |candidates| ==> Before(candidates[k], candidates[l])
  {
    candidates, candIndex := [], [];
    for i := 0 to g.R
      invariant |candIndex| == i && forall a :: 0 <= a < i ==> |candIndex[a]| == g.C
      invariant forall k :: 0 <= k < |candidates| ==> g.IsEmpty(candidates[k]) && Before(candidates[k], (i, 0))
      invariant forall k, l :: 0 <= k < l < |candidates| ==> Before(candidates[k], candidates[l])
      invariant forall a, b :: 0 <= a < i && 0 <= b < g.C ==>
        if g.cells[a][b] == '.' then 0 <= candIndex[a][b] < |candidates| && candidates[candIndex[a][b]] == (a, b)
        else candIndex[a][b] == -1
    {
      var row;
      row, candidates := IndexRow(g, i, candidates);
      candIndex := candIndex + [row];
    }
    forall k | 0 <= k < |candidates|
      ensures candIndex[candidates[k].0][candidates[k].1] == k
    {
      var l := candIndex[candidates[k].0][candidates[k].1];
      assert candidates[l] == candidates[k];
    }
  }

  /** The inner loop over row i: appends the row's '.' cells to the
      candidate list and records their positions in row, -1 elsewhere. */
  method IndexRow(g: Grid, i: int, candidates: seq<Cell>) returns (row: seq<int>, candidates': seq<Cell>)
    requires g.Rect() && 0 <= i < g.R
    requires forall k :: 0 <= k < |candidates| ==> g.IsEmpty(candidates[k]) && Before(candidates[k], (i, 0))
    requires forall k, l :: 0 <= k < l < |candidates| ==> Before(candidates[k], candidates[l])
    ensures |row| == g.C && |candidates| <= |candidates'| && candidates'[..|candidates|] == candidates
    ensures forall k :: 0 <= k < |candidates'| ==> g.IsEmpty(candidates'[k]) && Before(candidates'[k], (i + 1, 0))
    ensures forall k, l :: 0 <= k < l < |candidates'| ==> Before(candidates'[k], candidates'[l])
    ensures forall b :: 0 <= b < g.C ==>
      if g.cells[i][b] == '.' then |candidates| <= row[b] < |candidates'| && candidates'[row[b]] == (i, b)
      else row[b] == -1
  {
    row, candidates' := [], candidates;
    for j := 0 to g.C
      invariant |row| == j && |candidates| <= |candidates'| && candidates'[..|candidates|] == candidates
      invariant forall k :: 0 <= k < |candidates'| ==> g.IsEmpty(candidates'[k]) && Before(candidates'[k], (i, j))
      invariant forall k, l :: 0 <= k < l < |candidates'| ==> Before(candidates'[k], candidates'[l])
      invariant forall b :: 0 <= b < j ==>
        if g.cells[i][b] == '.' then |candidates| <= row[b] < |candidates'| && candidates'[row[b]] == (i, b)
        else row[b] == -1
    {
      if g.cells[i][j] == '.' {
        row := row + [|candidates'|];
        candidates' := candidates' + [(i, j)];
      } else {
        row := row + [-1];
      }
    }
  }

  /** Two candidates at the same cell are the same candidate. */
  lemma CandidateInjective(g: Grid, candidates: seq<Cell>, candIndex: seq<seq<int>>, k: int, l: int)
    requires Indexed(g, candidates, candIndex)
    requires 0 <= k < |candidates| && 0 <= l < |candidates| && candidates[k] == candidates[l]
    ensures k == l
  {
    assert candIndex[candidates[k].0][candidates[k].1] == k;
  }

  /** The grid holds no wall and no outpost. */
  ghost predicate ObstacleFree(g: Grid)
    requires g.Rect()
  {
    forall i, j :: 0 <= i < g.R && 0 <= j < g.C ==> g.cells[i][j] == '.'
  }

  /** hasObstacle: some cell is not '.'; the scan stops at the first one. */
  method HasObstacle(g: Grid) returns (hasObstacle: bool)
    requires g.Rect()
    ensures hasObstacle <==> !ObstacleFree(g)
  {
    hasObstacle := false;
    var i := 0;
    while i < g.R && !hasObstacle
      invariant 0 <= i <= g.R
      invariant !hasObstacle ==> forall a, b :: 0 <= a < i && 0 <= b < g.C ==> g.cells[a][b] == '.'
      invariant hasObstacle ==> !ObstacleFree(g)
    {
      for j := 0 to g.C
        invariant !hasObstacle
        invariant forall b :: 0 <= b < j ==> g.cells[i][b] == '.'
      {
        if g.cells[i][j] != '.' {
          assert !ObstacleFree(g);
          hasObstacle := true;
          break;
        }
      }
      i := i + 1;
    }
  }

  // ---------------------------------------------------------------------
  // The shortcut for grids without walls or outposts.

  /** The turrets (i, i) for i < m. */
  ghost function Diagonal(m: int): set<Cell>
    decreases m
  {
    if m <= 0 then {} else Diagonal(m - 1) + {(m - 1, m - 1)}
  }

  lemma {:induction false} DiagonalIs(m: nat)
    ensures forall p :: p in Diagonal(m) <==> p.0 == p.1 && 0 <= p.0 < m
    ensures |Diagonal(m)| == m
  {
    if m > 0 {
      DiagonalIs(m - 1);
    }
  }

  /** The integers 0 .. n-1. */
  ghost function Range(n: int): set<int>
    decreases n
  {
    if n <= 0 then {} else Range(n - 1) + {n - 1}
  }

  lemma {:induction false} RangeCard(n: nat)
    ensures |Range(n)| == n
    ensures forall a :: a in Range(n) <==> 0 <= a < n
  {
    if n > 0 {
      RangeCard(n - 1);
    }
  }

  /** A set of fewer than n integers misses one of 0 .. n-1. */
  lemma MissingIndex(X: set<int>, n: nat)
    requires |X| < n
    ensures exists a :: 0 <= a < n && a !in X
  {
    if forall a :: 0 <= a < n ==> a in X {
      RangeCard(n);
      SubsetCard(Range(n), X);
    }
  }

  ghost function Rows(S: set<Cell>): set<int> { set p | p in S :: p.0 }
  ghost function Cols(S: set<Cell>): set<int> { set p | p in S :: p.1 }

  /** A placement occupies at most as many rows, and columns, as it has
      turrets. */
  lemma {:induction false} RowsColsCard(S: set<Cell>)
    ensures |Rows(S)| <= |S| && |Cols(S)| <= |S|
    decreases |S|
  {
    if S != {} {
      var x :| x in S;
      RowsColsCard(S - {x});
      assert Rows(S) == Rows(S - {x}) + {x.0};
      assert Cols(S) == Cols(S - {x}) + {x.1};
    }
  }

  /** On a grid of '.' cells a turret sees every cell of its row and
      column. */
  lemma OpenSight(g: Grid, t: Cell, q: Cell)
    requires g.Rect() && ObstacleFree(g) && g.In(t) && g.In(q)
    requires t.0 == q.0 || t.1 == q.1
    ensures g.Sees(Rule, t, q)
  {
    if q != t {
      var d, k := DirTo(t, q), Dist(t, q);
      ClearRayIff(g, Rule, t, d, k);
      forall j | 1 <= j <= k
        ensures !g.Blocked(Rule, Step(t, d, j))
      {
        var n := Step(t, d, j);
        assert g.In(n);
      }
    }
  }

  /** On a grid of '.' cells the diagonal (i, i), i < min(R, C), is a
      placement: two diagonal cells share neither a row nor a column, and
      every cell shares its row (R <= C) or its column (C < R) with one. */
  lemma DiagonalSolution(g: Grid)
    requires g.Rect() && ObstacleFree(g)
    ensures IsSolution(g, Diagonal(Min(g.R, g.C))) && |Diagonal(Min(g.R, g.C))| == Min(g.R, g.C)
  {
    var m := Min(g.R, g.C);
    var D := Diagonal(m);
    DiagonalIs(m);
    forall p, q | p in D && q in D && p != q
      ensures !g.Sees(Rule, p, q)
    {
      assert p.0 != q.0 && p.1 != q.1;
    }
    forall a, b | 0 <= a < g.R && 0 <= b < g.C
      ensures Covered(g, Rule, D, (a, b))
    {
      var t := if g.R <= g.C then (a, a) else (b, b);
      OpenSight(g, t, (a, b));
    }
    assert forall o :: !g.IsOutpost(o);
  }

  /** On a grid of '.' cells the fewest turrets are min(R, C): a placement
      with fewer turrets leaves a row a and a column b without a turret, and
      then no turret sees the cell (a, b). */
  lemma ObstacleFreeMinimum(g: Grid)
    requires g.Rect() && ObstacleFree(g)
    ensures IsSolution(g, Diagonal(Min(g.R, g.C))) && |Diagonal(Min(g.R, g.C))| == Min(g.R, g.C)
    ensures forall S :: IsSolution(g, S) ==> Min(g.R, g.C) <= |S|
  {
    DiagonalSolution(g);
    forall S | IsSolution(g, S)
      ensures Min(g.R, g.C) <= |S|
    {
      FewestTurrets(g, S);
    }
  }

  lemma FewestTurrets(g: Grid, S: set<Cell>)
    requires g.Rect() && ObstacleFree(g) && IsSolution(g, S)
    ensures Min(g.R, g.C) <= |S|
  {
    if |S| < Min(g.R, g.C) {
      RowsColsCard(S);
      MissingIndex(Rows(S), g.R);
      var a :| 0 <= a < g.R && a !in Rows(S);
      EveryColumnUsed(g, S, a);
      RangeCard(g.C);
      forall b | b in Range(g.C)
        ensures b in Cols(S)
      {
        assert 0 <= b < g.C;
      }
      SubsetCard(Range(g.C), Cols(S));
    }
  }

  /** When row a holds no turret, the cells of row a are seen along their
      columns, so every column holds a turret. */
  lemma EveryColumnUsed(g: Grid, S: set<Cell>, a: int)
    requires g.Rect() && ObstacleFree(g) && IsSolution(g, S)
    requires 0 <= a < g.R && a !in Rows(S)
    ensures forall b :: 0 <= b < g.C ==> b in Cols(S)
  {
    forall b | 0 <= b < g.C
      ensures b in Cols(S)
    {
      assert Covered(g, Rule, S, (a, b));
      var t :| t in S && g.Sees(Rule, t, (a, b));
      assert t.0 in Rows(S) && t.1 in Cols(S);
    }
  }

  /** On a single open row, one turret at its left end sees every cell,
      and no placement has two turrets, since they would see each other. */
  lemma OpenRow(g: Grid)
    requires g.Rect() && ObstacleFree(g) && g.R == 1 && 1 <= g.C
    ensures IsSolution(g, {(0, 0)})
    ensures forall S :: IsSolution(g, S) ==> |S| <= 1
  {
    forall a, b | 0 <= a < g.R && 0 <= b < g.C
      ensures Covered(g, Rule, {(0, 0)}, (a, b))
    {
      OpenSight(g, (0, 0), (a, b));
    }
    assert forall o :: !g.IsOutpost(o);
    forall S | IsSolution(g, S)
      ensures |S| <= 1
    {
      if |S| > 1 {
        var x :| x in S;
        assert |S - {x}| >= 1;
        var y :| y in S - {x};
        assert g.IsEmpty(x) && g.IsEmpty(y);
        OpenSight(g, x, y);
      }
    }
  }

  /** Against the 1 x 3 grid "...", where main prints max(R, C) = 3: one
      turret at the left end is a placement, and no placement has more than
      one turret. */
  lemma MaxShortcutCounterexample()
    ensures var g := Grid(["..."], 1, 3);
      && g.WellFormed() && ObstacleFree(g) && Max(g.R, g.C) == 3
      && IsSolution(g, {(0, 0)})
      && forall S :: IsSolution(g, S) ==> |S| <= 1
  {
    var g := Grid(["..."], 1, 3);
    assert g.cells[0] == "...";
    assert ObstacleFree(g);
    OpenRow(g);
  }

  /** Against the 1 x 1 grid "#", a grid with an obstacle and no '.' cell,
      where the search loop for k = 1 .. E runs no round and main prints
      "noxus will rise!": the empty placement is a solution. */
  lemma EmptyPlacementCounterexample()
    ensures var g := Grid(["#"], 1, 1);
      && g.WellFormed() && !ObstacleFree(g) && g.EmptyCells() == {}
      && IsSolution(g, {})
  {
    var g := Grid(["#"], 1, 1);
    assert g.cells[0][0] == '#';
  }

  // ---------------------------------------------------------------------
  // Coverage and conflict sets.

  /** candCoverage[i] holds exactly the candidates that a turret on
      candidate i sees, i itself included. */
  ghost predicate CoverageTable(g: Grid, candidates: seq<Cell>, candCoverage: seq<set<int>>)
    requires g.Rect()
  {
    && |candCoverage| == |candidates|
    && (forall i, k :: 0 <= i < |candidates| && k in candCoverage[i] ==> 0 <= k < |candidates|)
    && (forall i, k :: 0 <= i < |candidates| && 0 <= k < |candidates| ==>
         (k in candCoverage[i] <==> g.Sees(Rule, candidates[i], candidates[k])))
  }

  /** The coverage bitsets: each starts as the candidate itself, and then
      every '.' cell on each of its four rays, up to the first cell that is
      not '.' or the grid's edge, is added. */
  method BuildCoverage(g: Grid, candidates: seq<Cell>, candIndex: seq<seq<int>>) returns (candCoverage: seq<set<int>>)
    requires Indexed(g, candidates, candIndex)
    ensures CoverageTable(g, candidates, candCoverage)
  {
    var E := |candidates|;
    candCoverage := [];
    for i := 0 to E
      invariant |candCoverage| == i && forall l :: 0 <= l < i ==> candCoverage[l] == {l}
    {
      candCoverage := candCoverage + [{i}];
    }
    for i := 0 to E
      invariant |candCoverage| == E
      invariant forall l, k :: 0 <= l < i && k in candCoverage[l] ==> 0 <= k < E
      invariant forall l, k :: 0 <= l < i && 0 <= k < E ==>
        (k in candCoverage[l] <==> g.Sees(Rule, candidates[l], candidates[k]))
      invariant forall l :: i <= l < E ==> candCoverage[l] == {l}
    {
      var t := candidates[i];
      var cov := candCoverage[i];
      forall k | 0 <= k < E && candidates[k] == t
        ensures k == i
      {
        CandidateInjective(g, candidates, candIndex, k, i);
      }
      for d := 0 to 4
        invariant forall k :: k in cov <==> 0 <= k < E && g.SeesAlong(Rule, t, candidates[k], d)
      {
        cov := CoverRay(g, candidates, candIndex, t, d, cov);
      }
      candCoverage := candCoverage[i := cov];
    }
    assert |candCoverage| == |candidates|;
  }

  /** The while loop along one direction: adds to cov the candidates on t's
      ray in direction d. */
  method CoverRay(g: Grid, candidates: seq<Cell>, candIndex: seq<seq<int>>, t: Cell, d: int, cov: set<int>)
    returns (cov': set<int>)
    requires Indexed(g, candidates, candIndex) && 0 <= d < 4
    ensures forall k :: k in cov' <==> k in cov || (0 <= k < |candidates| && g.OnRay(Rule, t, candidates[k], d))
  {
    var n := Step(t, d, 1);
    var steps := 0;
    cov' := cov;
    while g.In(n) && g.cells[n.0][n.1] == '.'
      invariant 0 <= steps && n == Step(t, d, steps + 1) && g.ClearRay(Rule, t, d, steps)
      invariant forall k :: k in cov' <==> k in cov || (0 <= k < |candidates| && InRayPrefix(t, candidates[k], d, steps))
      decreases Room(g.R, g.C, t, d) - steps
    {
      var idx := candIndex[n.0][n.1];
      CoverStep(g, candidates, candIndex, t, d, steps, n, cov, cov');
      cov' := cov' + {idx};
      n := Step(n, d, 1);
      steps := steps + 1;
    }
    PrefixIsRay(g, Rule, t, d, steps);
  }

  /** One turn of that loop: the '.' cell n extends the clear part of the
      ray by one, and its candidate, the only one there, joins cov'. */
  lemma CoverStep(g: Grid, candidates: seq<Cell>, candIndex: seq<seq<int>>, t: Cell, d: int, steps: int, n: Cell,
                  cov: set<int>, cov': set<int>)
    requires Indexed(g, candidates, candIndex) && 0 <= d < 4 && 0 <= steps
    requires n == Step(t, d, steps + 1) && g.In(n) && g.cells[n.0][n.1] == '.'
    requires g.ClearRay(Rule, t, d, steps)
    requires forall k :: k in cov' <==> k in cov || (0 <= k < |candidates| && InRayPrefix(t, candidates[k], d, steps))
    ensures g.ClearRay(Rule, t, d, steps + 1) && steps + 1 < Room(g.R, g.C, t, d)
    ensures Step(n, d, 1) == Step(t, d, steps + 2)
    ensures forall k :: k in cov' + {candIndex[n.0][n.1]} <==>
      k in cov || (0 <= k < |candidates| && InRayPrefix(t, candidates[k], d, steps + 1))
  {
    StepNext(t, d, steps + 1);
    RayRoom(g, t, d, steps);
    PrefixGrows(t, d, steps + 1);
    OnlyCandidateAt(g, candidates, candIndex, n);
  }

  /** A ray step still inside the grid leaves room for the loop's measure. */
  lemma RayRoom(g: Grid, t: Cell, d: int, steps: int)
    requires g.Rect() && 0 <= d < 4 && g.In(Step(t, d, steps + 1))
    ensures steps + 1 < Room(g.R, g.C, t, d)
  {
  }

  /** The candidate of a '.' cell is the only one there. */
  lemma OnlyCandidateAt(g: Grid, candidates: seq<Cell>, candIndex: seq<seq<int>>, n: Cell)
    requires Indexed(g, candidates, candIndex) && g.In(n) && g.cells[n.0][n.1] == '.'
    ensures forall k :: 0 <= k < |candidates| ==> (candidates[k] == n <==> k == candIndex[n.0][n.1])
  {
    forall k | 0 <= k < |candidates| && candidates[k] == n
      ensures k == candIndex[n.0][n.1]
    {
      CandidateInjective(g, candidates, candIndex, k, candIndex[n.0][n.1]);
    }
  }

  /** The conflict bitsets: a candidate's coverage without the candidate. */
  method BuildConflict(candCoverage: seq<set<int>>) returns (candConflict: seq<set<int>>)
    ensures |candConflict| == |candCoverage|
    ensures forall i :: 0 <= i < |candCoverage| ==> candConflict[i] == candCoverage[i] - {i}
  {
    candConflict := [];
    for i := 0 to |candCoverage|
      invariant |candConflict| == i
      invariant forall l :: 0 <= l < i ==> candConflict[l] == candCoverage[l] - {l}
    {
      candConflict := candConflict + [candCoverage[i] - {i}];
    }
  }

  /** Conflict is sight between two different candidates, and it is
      symmetric: '.' cells do not stop rays, so a turret on i sees j exactly
      when a turret on j sees i. */
  lemma ConflictSymmetric(g: Grid, candidates: seq<Cell>, candIndex: seq<seq<int>>,
                          candCoverage: seq<set<int>>, candConflict: seq<set<int>>, i: int, j: int)
    requires Indexed(g, candidates, candIndex) && CoverageTable(g, candidates, candCoverage)
    requires |candConflict| == |candidates|
    requires forall l :: 0 <= l < |candidates| ==> candConflict[l] == candCoverage[l] - {l}
    requires 0 <= i < |candidates| && 0 <= j < |candidates|
    ensures j in candConflict[i] <==> i != j && g.Sees(Rule, candidates[i], candidates[j])
    ensures j in candConflict[i] <==> i in candConflict[j]
  {
    SeesSymmetric(g, Rule, candidates[i], candidates[j]);
  }

  /** fullCoverage: every candidate index. */
  method BuildFullCoverage(E: int) returns (fullCoverage: set<int>)
    requires 0 <= E
    ensures forall k :: k in fullCoverage <==> 0 <= k < E
  {
    fullCoverage := {};
    for i := 0 to E
      invariant forall k :: k in fullCoverage <==> 0 <= k < i
    {
      fullCoverage := fullCoverage + {i};
    }
  }

  // ---------------------------------------------------------------------
  // Outposts.

  /** An outpost: its cell, the number of turrets it requires, and the
      candidates next to it. */
  datatype Outpost = Outpost(r: int, c: int, req: int, adj: seq<int>)

  /** The direction order of problemA.cpp's dr/dc tables (column + 1,
      column - 1, row + 1, row - 1) in the numbering of Step. */
  function ADir(d: int): int
    requires 0 <= d < 4
  {
    if d == 1 then 2 else if d == 2 then 1 else d
  }

  /** The candidates among the first n neighbours of o, in the order of
      problemA.cpp's direction tables. */
  function AdjList(g: Grid, candIndex: seq<seq<int>>, o: Cell, n: int): seq<int>
    requires g.Rect() && IndexShape(g, candIndex) && 0 <= n <= 4
  {
    if n == 0 then []
    else
      var q := Step(o, ADir(n - 1), 1);
      AdjList(g, candIndex, o, n - 1) + (if g.IsEmpty(q) then [candIndex[q.0][q.1]] else [])
  }

  /** op is the outpost of g at (op.r, op.c), with its digit and its
      adjacent candidates. */
  ghost predicate Describes(g: Grid, candIndex: seq<seq<int>>, op: Outpost)
    requires g.Rect() && IndexShape(g, candIndex)
  {
    && g.IsOutpost((op.r, op.c))
    && op.req == Digit(g.At((op.r, op.c)))
    && op.adj == AdjList(g, candIndex, (op.r, op.c), 4)
  }

  /** Some entry of the list is at cell o. */
  ghost predicate Listed(outposts: seq<Outpost>, o: Cell)
  {
    exists m :: 0 <= m < |outposts| && (outposts[m].r, outposts[m].c) == o
  }

  lemma ListedAppend(outposts: seq<Outpost>, op: Outpost, o: Cell)
    requires Listed(outposts, o)
    ensures Listed(outposts + [op], o)
  {
    var m :| 0 <= m < |outposts| && (outposts[m].r, outposts[m].c) == o;
    assert (outposts + [op])[m] == outposts[m];
  }

  /** The outpost list describes exactly the outposts of g. */
  ghost predicate OutpostTable(g: Grid, candIndex: seq<seq<int>>, outposts: seq<Outpost>)
  {
    && g.Rect() && IndexShape(g, candIndex)
    && (forall m :: 0 <= m < |outposts| ==> Describes(g, candIndex, outposts[m]))
    && (forall o :: g.IsOutpost(o) ==> Listed(outposts, o))
  }

  /** The outposts in row-major order: every digit cell, its requirement
      `grid[i][j] - '0'`, and the candidate indices of its in-bounds '.'
      neighbours. */
  method BuildOutposts(g: Grid, candIndex: seq<seq<int>>) returns (outposts: seq<Outpost>)
    requires g.WellFormed() && IndexShape(g, candIndex)
    ensures OutpostTable(g, candIndex, outposts)
    ensures forall m, n :: 0 <= m < n < |outposts| ==>
      Before((outposts[m].r, outposts[m].c), (outposts[n].r, outposts[n].c))
  {
    outposts := [];
    for i := 0 to g.R
      invariant forall m :: 0 <= m < |outposts| ==> Describes(g, candIndex, outposts[m])
      invariant forall o :: g.IsOutpost(o) && Before(o, (i, 0)) ==> Listed(outposts, o)
      invariant forall m :: 0 <= m < |outposts| ==> Before((outposts[m].r, outposts[m].c), (i, 0))
      invariant forall m, n :: 0 <= m < n < |outposts| ==>
        Before((outposts[m].r, outposts[m].c), (outposts[n].r, outposts[n].c))
    {
      for j := 0 to g.C
        invariant forall m :: 0 <= m < |outposts| ==> Describes(g, candIndex, outposts[m])
        invariant forall o :: g.IsOutpost(o) && Before(o, (i, j)) ==> Listed(outposts, o)
        invariant forall m :: 0 <= m < |outposts| ==> Before((outposts[m].r, outposts[m].c), (i, j))
        invariant forall m, n :: 0 <= m < n < |outposts| ==>
          Before((outposts[m].r, outposts[m].c), (outposts[n].r, outposts[n].c))
      {
        if IsDigit(g.cells[i][j]) {
          var adj := AdjacentCandidates(g, candIndex, (i, j));
          var op := Outpost(i, j, g.cells[i][j] as int - '0' as int, adj);
          forall o | g.IsOutpost(o) && Before(o, (i, j))
            ensures Listed(outposts + [op], o)
          {
            ListedAppend(outposts, op, o);
          }
          assert (outposts + [op])[|outposts|] == op;
          outposts := outposts + [op];
        }
      }
    }
  }

  /** The inner loop over the four directions: the candidate indices of
      o's in-bounds '.' neighbours. */
  method AdjacentCandidates(g: Grid, candIndex: seq<seq<int>>, o: Cell) returns (adj: seq<int>)
    requires g.Rect() && IndexShape(g, candIndex)
    ensures adj == AdjList(g, candIndex, o, 4)
  {
    adj := [];
    for d := 0 to 4
      invariant adj == AdjList(g, candIndex, o, d)
    {
      var n := Step(o, ADir(d), 1);
      if g.In(n) && g.cells[n.0][n.1] == '.' {
        adj := adj + [candIndex[n.0][n.1]];
      }
    }
  }

  /** The adjacency list of an outpost o holds, once each, exactly the
      candidates orthogonally adjacent to o; so at most four. */
  lemma AdjListIs(g: Grid, candidates: seq<Cell>, candIndex: seq<seq<int>>, o: Cell)
    requires Indexed(g, candidates, candIndex)
    ensures var adj := AdjList(g, candIndex, o, 4);
      && |adj| <= 4
      && (forall c :: c in adj <==> 0 <= c < |candidates| && Adjacent(o, candidates[c]))
      && (forall x, y :: 0 <= x < y < |adj| ==> adj[x] != adj[y])
  {
    AdjListUpTo(g, candidates, candIndex, o, 4);
    forall c | 0 <= c < |candidates|
      ensures Adjacent(o, candidates[c]) <==> exists e :: 0 <= e < 4 && candidates[c] == Step(o, ADir(e), 1)
    {
      AdjacentDir(o, candidates[c]);
    }
  }

  /** The four neighbours, in the order of the direction tables. */
  lemma AdjacentDir(o: Cell, q: Cell)
    ensures Adjacent(o, q) <==> exists e :: 0 <= e < 4 && q == Step(o, ADir(e), 1)
  {
    if Adjacent(o, q) {
      var e := if q.1 == o.1 + 1 then 0 else if q.1 == o.1 - 1 then 1 else if q.0 == o.0 + 1 then 2 else 3;
      assert q == Step(o, ADir(e), 1);
    }
  }

  lemma {:induction false} AdjListUpTo(g: Grid, candidates: seq<Cell>, candIndex: seq<seq<int>>, o: Cell, n: int)
    requires Indexed(g, candidates, candIndex) && 0 <= n <= 4
    ensures var adj := AdjList(g, candIndex, o, n);
      && |adj| <= n
      && (forall c :: c in adj <==> 0 <= c < |candidates| && exists e :: 0 <= e < n && candidates[c] == Step(o, ADir(e), 1))
      && (forall x, y :: 0 <= x < y < |adj| ==> adj[x] != adj[y])
  {
    if n > 0 {
      AdjListUpTo(g, candidates, candIndex, o, n - 1);
      var q := Step(o, ADir(n - 1), 1);
      var prev := AdjList(g, candIndex, o, n - 1);
      forall c | 0 <= c < |candidates|
        ensures c in AdjList(g, candIndex, o, n) <==> exists e :: 0 <= e < n && candidates[c] == Step(o, ADir(e), 1)
      {
        if candidates[c] == q {
          assert g.IsEmpty(q);
          CandidateInjective(g, candidates, candIndex, c, candIndex[q.0][q.1]);
        }
      }
      if g.IsEmpty(q) {
        var x := candIndex[q.0][q.1];
        assert candidates[x] == q;
      }
    }
  }

  /** The outposts among the first n whose adjacency list holds candidate
      c, in increasing order. */
  function OutpostsOf(outposts: seq<Outpost>, c: int, n: int): seq<int>
    requires 0 <= n <= |outposts|
  {
    if n == 0 then []
    else OutpostsOf(outposts, c, n - 1) + (if c in outposts[n - 1].adj then [n - 1] else [])
  }

  lemma {:induction false} OutpostsOfIs(outposts: seq<Outpost>, c: int, n: int)
    requires 0 <= n <= |outposts|
    ensures forall m :: m in OutpostsOf(outposts, c, n) <==> 0 <= m < n && c in outposts[m].adj
    ensures forall x, y :: 0 <= x < y < |OutpostsOf(outposts, c, n)| ==>
      OutpostsOf(outposts, c, n)[x] < OutpostsOf(outposts, c, n)[y]
  {
    if n > 0 {
      OutpostsOfIs(outposts, c, n - 1);
      var prev := OutpostsOf(outposts, c, n - 1);
      forall x | 0 <= x < |prev|
        ensures prev[x] < n - 1
      {
        assert prev[x] in prev;
      }
    }
  }

  /** candToOutposts: for each candidate, the outposts whose adjacency list
      holds it, each once and in increasing order. */
  method BuildCandToOutposts(E: int, outposts: seq<Outpost>) returns (candToOutposts: seq<seq<int>>)
    requires 0 <= E
    requires forall m, x :: 0 <= m < |outposts| && 0 <= x < |outposts[m].adj| ==> 0 <= outposts[m].adj[x] < E
    requires forall m, x, y :: 0 <= m < |outposts| && 0 <= x < y < |outposts[m].adj| ==>
      outposts[m].adj[x] != outposts[m].adj[y]
    ensures |candToOutposts| == E
    ensures forall c, m :: 0 <= c < E && m in candToOutposts[c] ==> 0 <= m < |outposts|
    ensures forall c, m :: 0 <= c < E && 0 <= m < |outposts| ==> (m in candToOutposts[c] <==> c in outposts[m].adj)
    ensures forall c, x, y :: 0 <= c < E && 0 <= x < y < |candToOutposts[c]| ==>
      candToOutposts[c][x] < candToOutposts[c][y]
  {
    candToOutposts := seq(E, c => []);
    for opIdx := 0 to |outposts|
      invariant |candToOutposts| == E
      invariant forall c :: 0 <= c < E ==> candToOutposts[c] == OutpostsOf(outposts, c, opIdx)
    {
      var adj := outposts[opIdx].adj;
      for x := 0 to |adj|
        invariant |candToOutposts| == E
        invariant forall c :: 0 <= c < E ==>
          candToOutposts[c] == OutpostsOf(outposts, c, opIdx) + (if c in adj[..x] then [opIdx] else [])
      {
        var cand := adj[x];
        assert cand !in adj[..x];
        assert forall c :: c in adj[..x + 1] <==> c in adj[..x] || c == cand;
        candToOutposts := candToOutposts[cand := candToOutposts[cand] + [opIdx]];
      }
      assert adj[..|adj|] == adj;
    }
    forall c | 0 <= c < E {
      OutpostsOfIs(outposts, c, |outposts|);
    }
  }

  // ---------------------------------------------------------------------
  // The search order.

  /** order is a permutation of the candidates 0 .. E-1. */
  ghost predicate IsPermutation(order: seq<int>, E: int)
  {
    && |order| == E
    && (forall c :: c in order <==> 0 <= c < E)
    && (forall x, y :: 0 <= x < y < |order| ==> order[x] != order[y])
  }

  /** Candidates covering more cells come first. */
  ghost predicate ByCoverage(candCoverage: seq<set<int>>, order: seq<int>)
  {
    forall x, y :: 0 <= x < y < |order| && 0 <= order[x] < |candCoverage| && 0 <= order[y] < |candCoverage| ==>
      |candCoverage[order[x]]| >= |candCoverage[order[y]]|
  }

  /** Inserting v at position p of s. */
  lemma InsertAt(s: seq<int>, p: int, v: int)
    requires 0 <= p <= |s|
    ensures var t := s[..p] + [v] + s[p..];
      && |t| == |s| + 1 && t[p] == v
      && (forall x :: 0 <= x < p ==> t[x] == s[x])
      && (forall x :: p < x < |t| ==> t[x] == s[x - 1])
      && (forall c :: c in t <==> c in s || c == v)
  {
    var t := s[..p] + [v] + s[p..];
    forall c | c in s
      ensures c in t
    {
      var x :| 0 <= x < |s| && s[x] == c;
      if x < p {
        assert t[x] == c;
      } else {
        assert t[x + 1] == c;
      }
    }
  }

  /** The first position of order whose candidate covers fewer cells than
      candidate v. */
  method InsertionPoint(candCoverage: seq<set<int>>, order: seq<int>, v: int) returns (p: int)
    requires 0 <= v < |candCoverage|
    requires forall x :: 0 <= x < |order| ==> 0 <= order[x] < |candCoverage|
    requires ByCoverage(candCoverage, order)
    ensures 0 <= p <= |order|
    ensures forall x :: 0 <= x < p ==> |candCoverage[order[x]]| >= |candCoverage[v]|
    ensures forall x :: p <= x < |order| ==> |candCoverage[order[x]]| < |candCoverage[v]|
  {
    p := 0;
    while p < |order| && |candCoverage[order[p]]| >= |candCoverage[v]|
      invariant 0 <= p <= |order|
      invariant forall x :: 0 <= x < p ==> |candCoverage[order[x]]| >= |candCoverage[v]|
    {
      p := p + 1;
    }
    forall x | p <= x < |order|
      ensures |candCoverage[order[x]]| < |candCoverage[v]|
    {
      assert |candCoverage[order[x]]| <= |candCoverage[order[p]]|;
    }
  }

  /** Inserting v at its insertion point keeps the order by coverage. */
  lemma InsertKeepsOrder(candCoverage: seq<set<int>>, order: seq<int>, p: int, v: int)
    requires 0 <= v < |candCoverage| && 0 <= p <= |order|
    requires forall x :: 0 <= x < |order| ==> 0 <= order[x] < |candCoverage|
    requires ByCoverage(candCoverage, order)
    requires forall x :: 0 <= x < p ==> |candCoverage[order[x]]| >= |candCoverage[v]|
    requires forall x :: p <= x < |order| ==> |candCoverage[order[x]]| < |candCoverage[v]|
    ensures ByCoverage(candCoverage, order[..p] + [v] + order[p..])
  {
    InsertAt(order, p, v);
  }

  /** candOrder: the candidates sorted by the size of their coverage,
      largest first. Each candidate is inserted after those covering at
      least as many cells. */
  method OrderCandidates(candCoverage: seq<set<int>>) returns (candOrder: seq<int>)
    ensures IsPermutation(candOrder, |candCoverage|)
    ensures ByCoverage(candCoverage, candOrder)
  {
    candOrder := [];
    for i := 0 to |candCoverage|
      invariant IsPermutation(candOrder, i)
      invariant forall x :: 0 <= x < |candOrder| ==> 0 <= candOrder[x] < i
      invariant ByCoverage(candCoverage, candOrder)
    {
      var p := InsertionPoint(candCoverage, candOrder, i);
      InsertAt(candOrder, p, i);
      InsertKeepsOrder(candCoverage, candOrder, p, i);
      assert i !in candOrder;
      candOrder := candOrder[..p] + [i] + candOrder[p..];
    }
  }
}
