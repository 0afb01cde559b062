/** What primo.cpp and tp1.cpp share: both enumerate the cells in row-major
    order, keep a placement as a matrix of placed turrets (1) and a matrix of
    covered cells, and test the outposts against a requirement matrix built
    while reading the grid. The two files differ only in where a ray stops
    and in whether turrets may see each other. */
module RowMajor {
  import opened GridModel
  import opened Placement

  /** S agrees with T on the cells before row-major index idx. */
  ghost predicate Extends(g: Grid, S: set<Cell>, T: set<Cell>, idx: int)
  {
    T <= S && forall p :: p in S && g.Key(p) < idx ==> p in T
  }

  /** The turrets marked in a placement matrix (entries other than 0). */
  ghost function PlacedSet(placed: array2<int>): set<Cell>
    reads placed
  {
    set a, b | 0 <= a < placed.Length0 && 0 <= b < placed.Length1 && placed[a, b] != 0 :: (a, b)
  }

  /** placed holds 1 on the cells of T and 0 elsewhere. */
  ghost predicate Holds(placed: array2<int>, T: set<Cell>)
    reads placed
  {
    forall a, b :: 0 <= a < placed.Length0 && 0 <= b < placed.Length1 ==>
      placed[a, b] == if (a, b) in T then 1 else 0
  }

  /** The outpost list and requirement matrix describe exactly the outposts
      of g and their digits. */
  ghost predicate OutpostTables(g: Grid, outposts: seq<Cell>, required: seq<seq<int>>)
  {
    && g.WellFormed()
    && (forall i :: 0 <= i < |outposts| ==> g.IsOutpost(outposts[i]))
    && (forall o :: g.IsOutpost(o) ==> o in outposts)
    && |required| == g.R
    && (forall r :: 0 <= r < g.R ==> |required[r]| == g.C)
    && (forall o :: g.IsOutpost(o) ==> required[o.0][o.1] == Digit(g.At(o)))
  }

  /** Moving past the cell with row-major index idx splits the extensions of
      T into those that contain the cell and those that do not. */
  lemma ExtendsStep(g: Grid, S: set<Cell>, T: set<Cell>, idx: int, p: Cell)
    requires g.In(p) && g.Key(p) == idx
    requires forall q :: q in S ==> g.In(q)
    requires Extends(g, S, T, idx)
    ensures p !in S ==> Extends(g, S, T, idx + 1)
    ensures p in S ==> Extends(g, S, T + {p}, idx + 1)
  {
    forall q | q in S && g.Key(q) == idx
      ensures q == p
    {
      KeyInjective(g, p, q);
    }
  }

  /** Every placement on the grid extends the empty placement at index 0. */
  lemma ExtendsStart(g: Grid, S: set<Cell>)
    requires forall q :: q in S ==> g.In(q)
    ensures Extends(g, S, {}, 0)
  {
    forall p | p in S
      ensures g.Key(p) >= 0
    {
      KeyBounds(g, p);
    }
  }

  /** At the end of the grid a placement is its own only extension. */
  lemma ExtendsEnd(g: Grid, S: set<Cell>, T: set<Cell>)
    requires forall q :: q in S ==> g.In(q)
    requires Extends(g, S, T, g.R * g.C)
    ensures S == T
  {
    forall p | p in S
      ensures p in T
    {
      KeyBounds(g, p);
    }
  }

  /** The scan in main: every outpost digit is recorded, in row-major order,
      with its digit in the requirement matrix; other entries are 0. */
  method ScanOutposts(g: Grid) returns (outposts: seq<Cell>, required: seq<seq<int>>)
    requires g.WellFormed()
    ensures OutpostTables(g, outposts, required)
    ensures forall r, c :: 0 <= r < g.R && 0 <= c < g.C && !g.IsOutpost((r, c)) ==> required[r][c] == 0
  {
    outposts := [];
    required := [];
    for r := 0 to g.R
      invariant |required| == r
      invariant forall i :: 0 <= i < r ==> |required[i]| == g.C
      invariant forall i :: 0 <= i < |outposts| ==> g.IsOutpost(outposts[i])
      invariant forall o :: g.IsOutpost(o) && o.0 < r ==> o in outposts && required[o.0][o.1] == Digit(g.At(o))
      invariant forall a, b :: 0 <= a < r && 0 <= b < g.C && !g.IsOutpost((a, b)) ==> required[a][b] == 0
    {
      var row: seq<int> := [];
      for c := 0 to g.C
        invariant |row| == c
        invariant forall i :: 0 <= i < |outposts| ==> g.IsOutpost(outposts[i])
        invariant forall o :: g.IsOutpost(o) && o.0 < r ==> o in outposts
        invariant forall j :: 0 <= j < c && IsOutpostChar(g.cells[r][j]) ==> (r, j) in outposts && row[j] == Digit(g.cells[r][j])
        invariant forall j :: 0 <= j < c && !IsOutpostChar(g.cells[r][j]) ==> row[j] == 0
      {
        if IsOutpostChar(g.cells[r][c]) {
          row := row + [Digit(g.cells[r][c])];
          outposts := outposts + [(r, c)];
        } else {
          row := row + [0];
        }
      }
      required := required + [row];
    }
  }

  /** validOutpostPlacement: each listed outpost has exactly its required
      number of placed turrets among its in-grid neighbours. */
  method ValidOutpostPlacement(g: Grid, outposts: seq<Cell>, required: seq<seq<int>>, placedTurrets: array2<int>)
    returns (ok: bool)
    requires OutpostTables(g, outposts, required)
    requires placedTurrets.Length0 == g.R && placedTurrets.Length1 == g.C
    ensures ok <==> forall i :: 0 <= i < |outposts| ==>
      g.NeighboursIn(outposts[i], PlacedSet(placedTurrets), 4) == required[outposts[i].0][outposts[i].1]
  {
    ghost var P := PlacedSet(placedTurrets);
    for i := 0 to |outposts|
      invariant forall i' :: 0 <= i' < i ==>
        g.NeighboursIn(outposts[i'], P, 4) == required[outposts[i'].0][outposts[i'].1]
    {
      var o := outposts[i];
      var count := 0;
      for d := 0 to 4
        invariant count == g.NeighboursIn(o, P, d)
      {
        var n := Step(o, d, 1);
        if g.In(n) && placedTurrets[n.0, n.1] != 0 {
          count := count + 1;
        }
      }
      if count != required[o.0][o.1] {
        return false;
      }
    }
    return true;
  }

  /** The two tests at the end of the grid, outposts first and coverage only
      when the outposts pass, accept exactly the placements T whose outposts
      are met and whose sight covers every empty cell. */
  method CheckLeaf(g: Grid, rule: StopRule, outposts: seq<Cell>, required: seq<seq<int>>,
                   placedTurrets: array2<int>, tempCovered: array2<bool>, ghost T: set<Cell>)
    returns (ok: bool)
    requires OutpostTables(g, outposts, required)
    requires placedTurrets.Length0 == g.R && placedTurrets.Length1 == g.C
    requires tempCovered.Length0 == g.R && tempCovered.Length1 == g.C
    requires Holds(placedTurrets, T) && forall p :: p in T ==> g.In(p)
    requires forall a, b :: 0 <= a < g.R && 0 <= b < g.C ==> tempCovered[a, b] == Covered(g, rule, T, (a, b))
    ensures ok <==> OutpostsMet(g, T) && AllSeen(g, rule, T)
  {
    assert PlacedSet(placedTurrets) == T;
    ok := ValidOutpostPlacement(g, outposts, required, placedTurrets);
    if ok {
      forall o | g.IsOutpost(o)
        ensures g.NeighboursIn(o, T, 4) == Digit(g.At(o))
      {
        ghost var i :| 0 <= i < |outposts| && outposts[i] == o;
      }
      ok := AllEmptyMarked(g, tempCovered);
    } else {
      ghost var i :| 0 <= i < |outposts| && g.NeighboursIn(outposts[i], T, 4) != required[outposts[i].0][outposts[i].1];
      assert g.IsOutpost(outposts[i]);
    }
  }

  /** The copies solve makes before placing a turret at (r, c): the placed
      matrix gains the turret and the covered matrix gains its sight, marked
      by placeTurret. */
  method CopyWithTurret(g: Grid, rule: StopRule, r: int, c: int, placedTurrets: array2<int>, tempCovered: array2<bool>,
                        ghost T: set<Cell>)
    returns (newPlacedTurrets: array2<int>, newCovered: array2<bool>)
    requires g.Rect() && g.In((r, c))
    requires placedTurrets.Length0 == g.R && placedTurrets.Length1 == g.C
    requires tempCovered.Length0 == g.R && tempCovered.Length1 == g.C
    requires Holds(placedTurrets, T)
    requires forall a, b :: 0 <= a < g.R && 0 <= b < g.C ==> tempCovered[a, b] == Covered(g, rule, T, (a, b))
    ensures fresh(newPlacedTurrets) && fresh(newCovered)
    ensures newPlacedTurrets.Length0 == g.R && newPlacedTurrets.Length1 == g.C
    ensures newCovered.Length0 == g.R && newCovered.Length1 == g.C
    ensures Holds(newPlacedTurrets, T + {(r, c)})
    ensures forall a, b :: 0 <= a < g.R && 0 <= b < g.C ==> newCovered[a, b] == Covered(g, rule, T + {(r, c)}, (a, b))
  {
    newCovered := new bool[g.R, g.C]((i, j) requires 0 <= i < g.R && 0 <= j < g.C reads tempCovered => tempCovered[i, j]);
    newPlacedTurrets := new int[g.R, g.C]((i, j) requires 0 <= i < g.R && 0 <= j < g.C reads placedTurrets => placedTurrets[i, j]);
    newPlacedTurrets[r, c] := 1;
    MarkSight(g, rule, newCovered, (r, c));
    forall a, b | 0 <= a < g.R && 0 <= b < g.C
      ensures newCovered[a, b] == Covered(g, rule, T + {(r, c)}, (a, b))
    {
      CoveredAdd(g, rule, T, (r, c), (a, b));
    }
  }
}
