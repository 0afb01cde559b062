/** The grid shared by the four solvers: an R x C array of characters where
    '#' is a wall, '.' an empty cell and a digit an outpost, the four orthogonal
    directions, and the rays a turret sees along. Each solver stops its rays by
    its own rule (StopRule); everything else here is plain geometry. */
module GridModel {

  /** A cell is a (row, column) pair. */
  type Cell = (int, int)

  predicate IsOutpostChar(ch: char) { '0' <= ch <= '4' }

  /** The alphabet the solvers are written for. */
  predicate IsGridChar(ch: char) { ch == '#' || ch == '.' || IsOutpostChar(ch) }

  /** The number an outpost digit asks for (`ch - '0'`). */
  function Digit(ch: char): int { ch as int - '0' as int }

  function Abs(x: int): nat { if x < 0 then -x else x }

  function Min(a: int, b: int): int { if a < b then a else b }
  function Max(a: int, b: int): int { if a < b then b else a }

  /** Row-major order of cells. */
  predicate Before(p: Cell, q: Cell)
  {
    p.0 < q.0 || (p.0 == q.0 && p.1 < q.1)
  }

  /** The k-th cell from p in direction d, with the directions numbered
      0: column + 1, 1: row + 1, 2: column - 1, 3: row - 1. */
  function Step(p: Cell, d: int, k: int): Cell
    requires 0 <= d < 4
  {
    if d == 0 then (p.0, p.1 + k)
    else if d == 1 then (p.0 + k, p.1)
    else if d == 2 then (p.0, p.1 - k)
    else (p.0 - k, p.1)
  }

  /** The direction in which q lies from p when they share a row or a column
      and differ; -1 otherwise. */
  function DirTo(p: Cell, q: Cell): int
  {
    if p.0 == q.0 && q.1 > p.1 then 0
    else if p.1 == q.1 && q.0 > p.0 then 1
    else if p.0 == q.0 && q.1 < p.1 then 2
    else if p.1 == q.1 && q.0 < p.0 then 3
    else -1
  }

  /** Manhattan distance. */
  function Dist(p: Cell, q: Cell): nat { Abs(q.0 - p.0) + Abs(q.1 - p.1) }

  /** Orthogonally adjacent. */
  predicate Adjacent(p: Cell, q: Cell) { Dist(p, q) == 1 }

  /** The direction opposite to d. */
  function Opposite(d: int): int
    requires 0 <= d < 4
  {
    (d + 2) % 4
  }

  lemma StepDir(p: Cell, d: int, k: int)
    requires 0 <= d < 4 && 1 <= k
    ensures DirTo(p, Step(p, d, k)) == d && Dist(p, Step(p, d, k)) == k
  {
  }

  /** One more step from the k-th cell is the (k+1)-th cell. */
  lemma StepNext(p: Cell, d: int, k: int)
    requires 0 <= d < 4
    ensures Step(Step(p, d, k), d, 1) == Step(p, d, k + 1)
  {
  }

  lemma DirStep(p: Cell, q: Cell)
    requires 0 <= DirTo(p, q)
    ensures 1 <= Dist(p, q) && q == Step(p, DirTo(p, q), Dist(p, q))
  {
  }

  /** Which cells stop a ray. Claude.cpp and primo.cpp stop at walls and
      outposts, tp1.cpp only at walls, problemA.cpp at anything but '.'. */
  datatype StopRule = WallOrOutpost | WallOnly | NonEmpty

  predicate Stops(rule: StopRule, ch: char)
  {
    match rule
    case WallOrOutpost => ch == '#' || IsOutpostChar(ch)
    case WallOnly => ch == '#'
    case NonEmpty => ch != '.'
  }

  /** The grid: R rows of C characters. */
  datatype Grid = Grid(cells: seq<seq<char>>, R: int, C: int)
  {
    predicate Rect()
    {
      |cells| == R && 0 <= C && forall i :: 0 <= i < R ==> |cells[i]| == C
    }

    predicate WellFormed()
    {
      Rect() && forall i, j :: 0 <= i < R && 0 <= j < C ==> IsGridChar(cells[i][j])
    }

    predicate In(p: Cell) { 0 <= p.0 < R && 0 <= p.1 < C }

    function At(p: Cell): char
      requires Rect() && In(p)
    {
      cells[p.0][p.1]
    }

    predicate IsEmpty(p: Cell)
      requires Rect()
    {
      In(p) && At(p) == '.'
    }

    predicate IsOutpost(p: Cell)
      requires Rect()
    {
      In(p) && IsOutpostChar(At(p))
    }

    /** A ray stepping onto p stops there: p is off the grid or stops it. */
    predicate Blocked(rule: StopRule, p: Cell)
      requires Rect()
    {
      !In(p) || Stops(rule, At(p))
    }

    /** The first k cells after p in direction d are on the grid and let the
        ray through. */
    predicate ClearRay(rule: StopRule, p: Cell, d: int, k: int)
      requires Rect() && 0 <= d < 4
      decreases k
    {
      k <= 0 || (ClearRay(rule, p, d, k - 1) && !Blocked(rule, Step(p, d, k)))
    }

    /** q lies on t's ray in direction d, before the ray is stopped. */
    predicate OnRay(rule: StopRule, t: Cell, q: Cell, d: int)
      requires Rect() && 0 <= d < 4
    {
      DirTo(t, q) == d && ClearRay(rule, t, d, Dist(t, q))
    }

    /** A turret at t sees q: q is t itself, or q lies on one of t's four
        rays before the ray is stopped. */
    predicate Sees(rule: StopRule, t: Cell, q: Cell)
      requires Rect()
    {
      q == t || (0 <= DirTo(t, q) && OnRay(rule, t, q, DirTo(t, q)))
    }

    /** Sees restricted to the rays in the first n directions. */
    predicate SeesAlong(rule: StopRule, t: Cell, q: Cell, n: int)
      requires Rect()
    {
      q == t || (0 <= DirTo(t, q) < n && OnRay(rule, t, q, DirTo(t, q)))
    }

    /** Row-major index of a cell (`r * C + c`). */
    function Key(p: Cell): int { p.0 * C + p.1 }

    /** Number of the first n directions whose neighbour of o lies in S. */
    function NeighboursIn(o: Cell, S: set<Cell>, n: int): nat
      requires 0 <= n <= 4
    {
      if n == 0 then 0
      else NeighboursIn(o, S, n - 1) + (if Step(o, n - 1, 1) in S then 1 else 0)
    }

    /** The empty cells of the grid. */
    function EmptyCells(): set<Cell>
      requires Rect()
    {
      set i, j | 0 <= i < R && 0 <= j < C && cells[i][j] == '.' :: (i, j)
    }
  }

  /** q is one of the first k cells of t's ray in direction d. */
  predicate InRayPrefix(t: Cell, q: Cell, d: int, k: int)
  {
    if d == 0 then q.0 == t.0 && t.1 < q.1 <= t.1 + k
    else if d == 1 then q.1 == t.1 && t.0 < q.0 <= t.0 + k
    else if d == 2 then q.0 == t.0 && t.1 - k <= q.1 < t.1
    else q.1 == t.1 && t.0 - k <= q.0 < t.0
  }

  lemma PrefixGrows(t: Cell, d: int, k: int)
    requires 0 <= d < 4 && 1 <= k
    ensures forall q :: InRayPrefix(t, q, d, k) <==> InRayPrefix(t, q, d, k - 1) || q == Step(t, d, k)
  {
  }

  /** In direction d, the prefix of length k holds the cells at most k steps
      away. */
  lemma PrefixDist(t: Cell, q: Cell, d: int, k: int)
    requires 0 <= d < 4
    ensures InRayPrefix(t, q, d, k) <==> DirTo(t, q) == d && Dist(t, q) <= k
  {
  }

  /** How many steps a ray from p in direction d can take before leaving a
      grid of R rows and C columns (a termination measure). */
  function Room(R: int, C: int, p: Cell, d: int): int
    requires 0 <= d < 4
  {
    if d == 0 then C - p.1 else if d == 1 then R - p.0 else if d == 2 then p.1 + 1 else p.0 + 1
  }

  /** Once a ray is stopped after k clear steps, exactly the prefixes of
      length at most k are clear. */
  lemma RayStops(g: Grid, rule: StopRule, p: Cell, d: int, k: nat)
    requires g.Rect() && 0 <= d < 4
    requires g.ClearRay(rule, p, d, k) && g.Blocked(rule, Step(p, d, k + 1))
    ensures forall m :: g.ClearRay(rule, p, d, m) <==> m <= k
  {
    forall m ensures g.ClearRay(rule, p, d, m) <==> m <= k {
      if m <= k {
        ClearRayPrefix(g, rule, p, d, k, m);
      } else {
        if g.ClearRay(rule, p, d, m) {
          ClearRayPrefix(g, rule, p, d, m, k + 1);
        }
      }
    }
  }

  /** A clear ray stays clear when cut shorter. */
  lemma {:induction false} ClearRayPrefix(g: Grid, rule: StopRule, p: Cell, d: int, k: int, m: int)
    requires g.Rect() && 0 <= d < 4 && m <= k
    requires g.ClearRay(rule, p, d, k)
    ensures g.ClearRay(rule, p, d, m)
    decreases k - m
  {
    if m < k {
      ClearRayPrefix(g, rule, p, d, k - 1, m);
    }
  }

  /** Every step of a clear ray lets the ray through. */
  lemma ClearRayAt(g: Grid, rule: StopRule, p: Cell, d: int, k: int, j: int)
    requires g.Rect() && 0 <= d < 4 && 1 <= j <= k
    requires g.ClearRay(rule, p, d, k)
    ensures !g.Blocked(rule, Step(p, d, j))
  {
    ClearRayPrefix(g, rule, p, d, k, j);
  }

  /** A ray is clear for k steps exactly when none of its first k cells
      stops it. */
  lemma {:induction false} ClearRayIff(g: Grid, rule: StopRule, p: Cell, d: int, k: int)
    requires g.Rect() && 0 <= d < 4
    ensures g.ClearRay(rule, p, d, k) <==> forall j :: 1 <= j <= k ==> !g.Blocked(rule, Step(p, d, j))
    decreases k
  {
    if k > 0 {
      ClearRayIff(g, rule, p, d, k - 1);
    }
  }

  /** Sight is symmetric between two cells that do not stop rays. */
  lemma SeesSymmetric(g: Grid, rule: StopRule, p: Cell, q: Cell)
    requires g.Rect() && g.In(p) && g.In(q)
    requires !Stops(rule, g.At(p)) && !Stops(rule, g.At(q))
    ensures g.Sees(rule, p, q) <==> g.Sees(rule, q, p)
  {
    if g.Sees(rule, p, q) { SeesFlip(g, rule, p, q); }
    if g.Sees(rule, q, p) { SeesFlip(g, rule, q, p); }
  }

  lemma SeesFlip(g: Grid, rule: StopRule, p: Cell, q: Cell)
    requires g.Rect() && g.In(p)
    requires !Stops(rule, g.At(p))
    requires g.Sees(rule, p, q)
    ensures g.Sees(rule, q, p)
  {
    if p != q {
      var d, k := DirTo(p, q), Dist(p, q);
      var e := DirTo(q, p);
      assert e == Opposite(d) && Dist(q, p) == k;
      ReverseClear(g, rule, p, d, q, e, k, k);
    }
  }

  /** Walking back from q = Step(p, d, k) towards p, the first m steps are the
      cells Step(p, d, k - 1) down to Step(p, d, k - m). */
  lemma {:induction false} ReverseClear(g: Grid, rule: StopRule, p: Cell, d: int, q: Cell, e: int, k: int, m: int)
    requires g.Rect() && g.In(p) && !Stops(rule, g.At(p))
    requires 0 <= d < 4 && e == Opposite(d) && 1 <= k && q == Step(p, d, k) && 0 <= m <= k
    requires g.ClearRay(rule, p, d, k)
    ensures g.ClearRay(rule, q, e, m)
    decreases m
  {
    if m > 0 {
      ReverseClear(g, rule, p, d, q, e, k, m - 1);
      assert Step(q, e, m) == Step(p, d, k - m);
      if m < k {
        ClearRayAt(g, rule, p, d, k, k - m);
      }
    }
  }

  /** The row-major index enumerates the cells of the grid without repeats. */
  lemma KeyBounds(g: Grid, p: Cell)
    requires g.In(p)
    ensures 0 <= g.Key(p) < g.R * g.C
  {
    MulMono(p.0, g.R - 1, g.C);
    assert (g.R - 1) * g.C + g.C == g.R * g.C;
  }

  lemma KeyInjective(g: Grid, p: Cell, q: Cell)
    requires g.In(p) && g.In(q) && g.Key(p) == g.Key(q)
    ensures p == q
  {
    if p.0 < q.0 {
      MulMono(p.0 + 1, q.0, g.C);
    } else if q.0 < p.0 {
      MulMono(q.0 + 1, p.0, g.C);
    }
  }

  lemma KeyOfIndex(g: Grid, idx: int)
    requires 0 <= idx < g.R * g.C && 0 < g.C
    ensures g.In((idx / g.C, idx % g.C)) && g.Key((idx / g.C, idx % g.C)) == idx
  {
    var r, c := idx / g.C, idx % g.C;
    assert r * g.C + c == idx;
    if r >= g.R {
      MulMono(g.R, r, g.C);
    }
    if r < 0 {
      MulMono(r, -1, g.C);
    }
  }

  lemma MulMono(a: int, b: int, c: int)
    requires a <= b && 0 <= c
    ensures a * c <= b * c
  {
  }

  /** Marks in cov every cell that a turret at t sees under rule (t itself and
      each of its four rays up to the first blocked step); nothing is cleared
      and no other entry changes. */
  method MarkSight(g: Grid, rule: StopRule, cov: array2<bool>, t: Cell)
    requires g.Rect() && g.In(t) && cov.Length0 == g.R && cov.Length1 == g.C
    modifies cov
    ensures forall a, b :: 0 <= a < g.R && 0 <= b < g.C ==>
      cov[a, b] == (old(cov[a, b]) || g.Sees(rule, t, (a, b)))
  {
    cov[t.0, t.1] := true;
    for d := 0 to 4
      invariant forall a, b :: 0 <= a < g.R && 0 <= b < g.C ==>
        cov[a, b] == (old(cov[a, b]) || g.SeesAlong(rule, t, (a, b), d))
    {
      var k := MarkRay(g, rule, cov, t, d);
      PrefixIsRay(g, rule, t, d, k);
    }
  }

  /** Marks the cells of t's ray in direction d, stepping until the ray is
      stopped after k clear steps. */
  method MarkRay(g: Grid, rule: StopRule, cov: array2<bool>, t: Cell, d: int) returns (k: nat)
    requires g.Rect() && 0 <= d < 4 && cov.Length0 == g.R && cov.Length1 == g.C
    modifies cov
    ensures g.ClearRay(rule, t, d, k) && g.Blocked(rule, Step(t, d, k + 1))
    ensures forall a, b :: 0 <= a < g.R && 0 <= b < g.C ==>
      cov[a, b] == (old(cov[a, b]) || InRayPrefix(t, (a, b), d, k))
  {
    var n := t;
    k := 0;
    while true
      invariant n == Step(t, d, k) && g.ClearRay(rule, t, d, k)
      invariant forall a, b :: 0 <= a < g.R && 0 <= b < g.C ==>
        cov[a, b] == (old(cov[a, b]) || InRayPrefix(t, (a, b), d, k))
      decreases Room(g.R, g.C, t, d) - k
    {
      StepNext(t, d, k);
      n := Step(n, d, 1);
      if g.Blocked(rule, n) {
        break;
      }
      cov[n.0, n.1] := true;
      k := k + 1;
      PrefixGrows(t, d, k);
    }
  }

  /** Once a ray is stopped after k clear steps, the cells on it are those
      at most k steps away in its direction. */
  lemma PrefixIsRay(g: Grid, rule: StopRule, t: Cell, d: int, k: nat)
    requires g.Rect() && 0 <= d < 4
    requires g.ClearRay(rule, t, d, k) && g.Blocked(rule, Step(t, d, k + 1))
    ensures forall q :: InRayPrefix(t, q, d, k) <==> g.OnRay(rule, t, q, d)
  {
    RayStops(g, rule, t, d, k);
    forall q
      ensures InRayPrefix(t, q, d, k) <==> g.OnRay(rule, t, q, d)
    {
      PrefixDist(t, q, d, k);
      if DirTo(t, q) == d {
        DirStep(t, q);
      }
    }
  }

  /** The k-th cell of a clear ray is seen from its start. */
  lemma RaySees(g: Grid, rule: StopRule, t: Cell, d: int, k: int)
    requires g.Rect() && 0 <= d < 4 && 1 <= k && g.ClearRay(rule, t, d, k)
    ensures g.Sees(rule, t, Step(t, d, k)) && Step(t, d, k) != t
  {
    StepDir(t, d, k);
  }

  /** True iff every empty cell is marked in cov. */
  method AllEmptyMarked(g: Grid, cov: array2<bool>) returns (ok: bool)
    requires g.Rect() && cov.Length0 == g.R && cov.Length1 == g.C
    ensures ok <==> forall a, b :: 0 <= a < g.R && 0 <= b < g.C && g.cells[a][b] == '.' ==> cov[a, b]
  {
    for r := 0 to g.R
      invariant forall a, b :: 0 <= a < r && 0 <= b < g.C && g.cells[a][b] == '.' ==> cov[a, b]
    {
      for c := 0 to g.C
        invariant forall a, b :: 0 <= a < r && 0 <= b < g.C && g.cells[a][b] == '.' ==> cov[a, b]
        invariant forall b :: 0 <= b < c && g.cells[r][b] == '.' ==> cov[r, b]
      {
        if g.cells[r][c] == '.' && !cov[r, c] {
          return false;
        }
      }
    }
    return true;
  }

  /** A subset is no larger than the set containing it. */
  lemma SubsetCard<X>(T: set<X>, S: set<X>)
    requires T <= S
    ensures |T| <= |S|
  {
    assert S == T + (S - T);
  }
}
