/** problemA.cpp, the search: an iterative-deepening depth-first search that
    asks, for k = 1, 2, ..., E in turn, whether exactly k candidates can be
    chosen (in the coverage order, each at a later position than the last)
    so that no two conflict, every candidate is covered and every outpost has
    exactly its number of adjacent turrets. The variables the dfs lambda
    captures (solutionFound, best and the tables) are the fields of a Search
    object. */
module ProblemASearch {
  import opened GridModel
  import opened Placement
  import opened ProblemA

  /** INT_MAX, what best holds before the first round. */
  const INT_MAX := 0x7fff_ffff

  /** How many entries of s lie in X. */
  function CountIn(s: seq<int>, X: set<int>): nat
  {
    if s == [] then 0 else CountIn(s[..|s| - 1], X) + (if s[|s| - 1] in X then 1 else 0)
  }

  /** How many entries of s are not in F (`possible`). */
  function CountFree(s: seq<int>, F: set<int>): nat
  {
    if s == [] then 0 else CountFree(s[..|s| - 1], F) + (if s[|s| - 1] !in F then 1 else 0)
  }

  lemma CountInAppend(s: seq<int>, x: int, X: set<int>)
    ensures CountIn(s + [x], X) == CountIn(s, X) + (if x in X then 1 else 0)
    ensures CountFree(s + [x], X) == CountFree(s, X) + (if x !in X then 1 else 0)
  {
    assert (s + [x])[..|s|] == s;
  }

  /** The entries of s are pairwise different. */
  predicate Distinct(s: seq<int>)
  {
    forall x, y :: 0 <= x < y < |s| ==> s[x] != s[y]
  }

  /** Choosing one more candidate c raises the count of a list without
      repetitions by one exactly when c is on the list. */
  lemma {:induction false} CountInAdd(s: seq<int>, X: set<int>, c: int)
    requires Distinct(s) && c !in X
    ensures CountIn(s, X + {c}) == CountIn(s, X) + (if c in s then 1 else 0)
    decreases |s|
  {
    if s != [] {
      var t := s[..|s| - 1];
      assert s == t + [s[|s| - 1]];
      CountInAdd(t, X, c);
      assert c in s <==> c in t || c == s[|s| - 1];
    }
  }

  /** The count over the union of two disjoint sets is the sum of the
      counts. */
  lemma {:induction false} CountInSplit(s: seq<int>, A: set<int>, B: set<int>)
    requires A !! B
    ensures CountIn(s, A + B) == CountIn(s, A) + CountIn(s, B)
    decreases |s|
  {
    if s != [] {
      CountInSplit(s[..|s| - 1], A, B);
    }
  }

  /** Entries in a set disjoint from F are among those not in F. */
  lemma {:induction false} CountInFree(s: seq<int>, A: set<int>, F: set<int>)
    requires A !! F
    ensures CountIn(s, A) <= CountFree(s, F)
    decreases |s|
  {
    if s != [] {
      CountInFree(s[..|s| - 1], A, F);
    }
  }

  lemma {:induction false} CountInEmpty(s: seq<int>)
    ensures CountIn(s, {}) == 0
    decreases |s|
  {
    if s != [] {
      CountInEmpty(s[..|s| - 1]);
    }
  }

  /** A subset as large as its superset is the superset. */
  lemma SameSize(A: set<int>, B: set<int>)
    requires A <= B && |B| <= |A|
    ensures A == B
  {
    assert B == A + (B - A);
  }

  class Search {
    const g: Grid
    const candidates: seq<Cell>
    const candIndex: seq<seq<int>>
    const candCoverage: seq<set<int>>
    const candConflict: seq<set<int>>
    const fullCoverage: set<int>
    const outposts: seq<Outpost>
    const candToOutposts: seq<seq<int>>
    const candOrder: seq<int>
    var solutionFound: bool
    var best: int
    /** The placement of best candidates found, once solutionFound. */
    ghost var found: set<int>

    /** The tables describe the grid. */
    ghost predicate Geometry()
    {
      && g.WellFormed()
      && Indexed(g, candidates, candIndex)
      && CoverageTable(g, candidates, candCoverage)
      && OutpostTable(g, candIndex, outposts)
      && ByCoverage(candCoverage, candOrder)
    }

    /** What the search relies on, in terms of candidate indices only. */
    ghost predicate IndexTables()
    {
      && |candCoverage| == |candidates| && |candConflict| == |candidates| && |candToOutposts| == |candidates|
      && (forall i, k :: 0 <= i < |candidates| && k in candCoverage[i] ==> 0 <= k < |candidates|)
      && (forall i :: 0 <= i < |candidates| ==> candConflict[i] == candCoverage[i] - {i})
      && (forall i, j :: 0 <= i < |candidates| && 0 <= j < |candidates| ==>
            (j in candConflict[i] <==> i in candConflict[j]))
      && (forall k :: k in fullCoverage <==> 0 <= k < |candidates|)
      && (forall m, x :: 0 <= m < |outposts| && 0 <= x < |outposts[m].adj| ==> 0 <= outposts[m].adj[x] < |candidates|)
      && (forall m :: 0 <= m < |outposts| ==> Distinct(outposts[m].adj) && 0 <= outposts[m].req)
      && (forall c, m :: 0 <= c < |candidates| && m in candToOutposts[c] ==> 0 <= m < |outposts|)
      && (forall c, m :: 0 <= c < |candidates| && 0 <= m < |outposts| ==>
            (m in candToOutposts[c] <==> c in outposts[m].adj))
      && (forall c, x, y :: 0 <= c < |candidates| && 0 <= x < y < |candToOutposts[c]| ==>
            candToOutposts[c][x] < candToOutposts[c][y])
      && IsPermutation(candOrder, |candidates|)
      && (forall x :: 0 <= x < |candOrder| ==> 0 <= candOrder[x] < |candidates|)
    }

    ghost predicate Valid()
      reads this
    {
      && IndexTables()
      && (solutionFound ==> IdxSolution(found) && |found| == best)
    }

    /** Some candidate of X covers candidate k. */
    ghost predicate CoveredBy(X: set<int>, k: int)
    {
      exists c :: c in X && 0 <= c < |candCoverage| && k in candCoverage[c]
    }

    /** Candidate k conflicts with some candidate of X. */
    ghost predicate Conflicted(X: set<int>, k: int)
    {
      exists c :: c in X && 0 <= c < |candConflict| && k in candConflict[c]
    }

    /** No two candidates of X conflict. */
    ghost predicate NoConflicts(X: set<int>)
    {
      forall a, b :: a in X && b in X && 0 <= a < |candConflict| ==> b !in candConflict[a]
    }

    /** A placement as the search sees it: candidates, no two in conflict,
        every candidate covered, every outpost's count equal to its
        requirement. */
    ghost predicate IdxSolution(X: set<int>)
    {
      && (forall c :: c in X ==> 0 <= c < |candidates|)
      && NoConflicts(X)
      && (forall k :: 0 <= k < |candidates| ==> CoveredBy(X, k))
      && (forall m :: 0 <= m < |outposts| ==> CountIn(outposts[m].adj, X) == outposts[m].req)
    }

    /** S agrees with chosen on the candidates at the positions before pos
        of the search order. */
    ghost predicate ExtendsAt(S: set<int>, chosen: set<int>, pos: int)
    {
      chosen <= S && forall x :: 0 <= x < pos && x < |candOrder| && candOrder[x] in S ==> candOrder[x] in chosen
    }

    /** The candidates of chosen all sit before position pos. */
    ghost predicate Placed(pos: int, chosen: set<int>)
    {
      && 0 <= pos <= |candOrder|
      && (forall c :: c in chosen ==> 0 <= c < |candidates|)
      && (forall x :: pos <= x < |candOrder| ==> candOrder[x] !in chosen)
    }

    /** currCoverage is the union of the chosen candidates' coverage. */
    ghost predicate CoverageIs(currCoverage: set<int>, chosen: set<int>)
    {
      forall k :: k in currCoverage <==> 0 <= k < |candidates| && CoveredBy(chosen, k)
    }

    /** forbidden holds the chosen candidates and their conflict sets. */
    ghost predicate ForbiddenIs(forbidden: set<int>, chosen: set<int>)
    {
      forall k :: k in forbidden <==> k in chosen || Conflicted(chosen, k)
    }

    /** outCount[m] is the number of chosen candidates next to outpost m. */
    ghost predicate Counted(outCount: array<int>, chosen: set<int>)
      reads outCount
    {
      && outCount.Length == |outposts|
      && forall m :: 0 <= m < |outposts| ==> outCount[m] == CountIn(outposts[m].adj, chosen)
    }

    /** What the first check keeps: no outpost has more turrets than it
        requires. */
    ghost predicate Capped(outCount: array<int>)
      reads outCount
    {
      && outCount.Length == |outposts|
      && forall m :: 0 <= m < |outposts| ==> outCount[m] <= outposts[m].req
    }

    /** What the second check ensures before a recursive call: every
        outpost can still get what it needs from candidates that are not
        forbidden. */
    ghost predicate Reachable(outCount: array<int>, forbidden: set<int>)
      reads outCount
    {
      && outCount.Length == |outposts|
      && forall m :: 0 <= m < |outposts| ==> outposts[m].req - outCount[m] <= CountFree(outposts[m].adj, forbidden)
    }

    /** The arguments of a dfs call describe the chosen candidates; no
        outpost is over its requirement, and after a recursive call (count >
        0) each can still be met. */
    ghost predicate State(pos: int, count: int, currCoverage: set<int>, forbidden: set<int>, outCount: array<int>,
                          chosen: set<int>)
      reads outCount
    {
      && Placed(pos, chosen)
      && count == |chosen|
      && NoConflicts(chosen)
      && CoverageIs(currCoverage, chosen)
      && ForbiddenIs(forbidden, chosen)
      && Counted(outCount, chosen)
      && Capped(outCount)
      && (0 < count ==> Reachable(outCount, forbidden))
    }

    /** The per-test-case tables after the obstacle check: coverage and
        conflict bitsets, fullCoverage, outposts, candToOutposts and the
        search order; no round has run yet. */
    constructor (grid: Grid, cands: seq<Cell>, index: seq<seq<int>>)
      requires grid.WellFormed() && Indexed(grid, cands, index)
      ensures g == grid && candidates == cands && candIndex == index
      ensures Geometry() && Valid() && !solutionFound && best == INT_MAX
    {
      var coverage := BuildCoverage(grid, cands, index);
      var conflict := BuildConflict(coverage);
      var full := BuildFullCoverage(|cands|);
      var ops := BuildOutposts(grid, index);
      forall m | 0 <= m < |ops|
        ensures Distinct(ops[m].adj)
        ensures forall x :: 0 <= x < |ops[m].adj| ==> 0 <= ops[m].adj[x] < |cands|
      {
        AdjListIs(grid, cands, index, (ops[m].r, ops[m].c));
        forall x | 0 <= x < |ops[m].adj|
          ensures 0 <= ops[m].adj[x] < |cands|
        {
          assert ops[m].adj[x] in ops[m].adj;
        }
      }
      var toOutposts := BuildCandToOutposts(|cands|, ops);
      var order := OrderCandidates(coverage);
      forall x | 0 <= x < |order|
        ensures 0 <= order[x] < |cands|
      {
        assert order[x] in order;
      }
      forall i, j | 0 <= i < |cands| && 0 <= j < |cands|
        ensures j in conflict[i] <==> i in conflict[j]
      {
        ConflictSymmetric(grid, cands, index, coverage, conflict, i, j);
      }
      g, candidates, candIndex := grid, cands, index;
      candCoverage, candConflict, fullCoverage := coverage, conflict, full;
      outposts, candToOutposts, candOrder := ops, toOutposts, order;
      solutionFound, best, found := false, INT_MAX, {};
      new;
      assert IndexTables();
    }

    /** The driver loop: best = k and a fresh round of dfs for k = first,
        first + 1, ..., E, stopping at the first round that finds a
        placement; -1 when none does. initOutCount is allocated once and no
        round changes it. */
    method Deepen(first: int) returns (result: int)
      requires Valid() && 0 <= first <= |candidates| + 1
      modifies this
      ensures Valid()
      ensures result == -1 || first <= result <= |candidates|
      ensures result >= 0 ==> IdxSolution(found) && |found| == result
      ensures forall S :: IdxSolution(S) && first <= |S| ==> 0 <= result <= |S|
    {
      var initOutCount := new int[|outposts|](m => 0);
      for k := first to |candidates| + 1
        invariant Valid()
        invariant forall m :: 0 <= m < initOutCount.Length ==> initOutCount[m] == 0
        invariant forall S :: IdxSolution(S) && first <= |S| ==> k <= |S|
      {
        best := k;
        solutionFound := false;
        var initCoverage: set<int> := {};
        var initForbidden: set<int> := {};
        StartState(initCoverage, initForbidden, initOutCount);
        Dfs(0, 0, initCoverage, initForbidden, initOutCount, {});
        if solutionFound {
          return k;
        }
        forall S | IdxSolution(S) && first <= |S|
          ensures |S| != k
        {
          assert ExtendsAt(S, {}, 0);
        }
      }
      forall S | IdxSolution(S)
        ensures |S| <= |candidates|
      {
        SolutionSize(S);
      }
      return -1;
    }

    /** The arguments of the first dfs call of a round describe the empty
        choice. */
    lemma StartState(initCoverage: set<int>, initForbidden: set<int>, initOutCount: array<int>)
      requires IndexTables() && initCoverage == {} && initForbidden == {}
      requires initOutCount.Length == |outposts| && forall m :: 0 <= m < initOutCount.Length ==> initOutCount[m] == 0
      ensures State(0, 0, initCoverage, initForbidden, initOutCount, {})
    {
      forall m | 0 <= m < |outposts|
        ensures initOutCount[m] == CountIn(outposts[m].adj, {})
      {
        CountInEmpty(outposts[m].adj);
      }
    }

    /** A placement has at most E candidates. */
    lemma SolutionSize(S: set<int>)
      requires forall c :: c in S ==> 0 <= c < |candidates|
      ensures |S| <= |candidates|
    {
      RangeCard(|candidates|);
      forall c | c in S
        ensures c in Range(|candidates|)
      {
      }
      SubsetCard(S, Range(|candidates|));
    }

    /** dfs: returns at once once a placement has been found; at depth best
        it records the chosen candidates when they cover everything and meet
        every outpost; otherwise it prunes when too few positions remain or
        when the candidates still allowed cannot cover everything, and then
        tries each allowed candidate from position pos on. On return it has
        found a placement of best candidates whenever one agrees with chosen
        before pos. */
    method Dfs(pos: int, count: int, currCoverage: set<int>, forbidden: set<int>, outCount: array<int>,
               ghost chosen: set<int>)
      requires Valid() && State(pos, count, currCoverage, forbidden, outCount, chosen) && count <= best
      modifies this
      ensures Valid() && best == old(best) && (old(solutionFound) ==> solutionFound)
      ensures forall S :: IdxSolution(S) && |S| == best && ExtendsAt(S, chosen, pos) ==> solutionFound
      decreases |candOrder| - pos, 2
    {
      if solutionFound {
        return;
      }
      if count == best {
        Leaf(pos, count, currCoverage, forbidden, outCount, chosen);
        return;
      }
      if count + (|candOrder| - pos) < best {
        forall S | IdxSolution(S) && ExtendsAt(S, chosen, pos)
          ensures |S| <= count + (|candOrder| - pos)
        {
          SizeBound(S, chosen, pos);
        }
        return;
      }
      var potential := Potential(pos, currCoverage, forbidden);
      forall S | IdxSolution(S) && ExtendsAt(S, chosen, pos)
        ensures potential == fullCoverage
      {
        PotentialCovers(S, pos, currCoverage, forbidden, chosen, potential);
      }
      if potential != fullCoverage {
        return;
      }
      Branch(pos, count, currCoverage, forbidden, outCount, chosen);
    }

    /** The loop of dfs: each allowed candidate from position pos on is tried
        in turn, until a solution of size best is found. */
    method Branch(pos: int, count: int, currCoverage: set<int>, forbidden: set<int>, outCount: array<int>,
                  ghost chosen: set<int>)
      requires Valid() && !solutionFound && State(pos, count, currCoverage, forbidden, outCount, chosen)
      requires count < best
      modifies this
      ensures Valid() && best == old(best)
      ensures forall S :: IdxSolution(S) && |S| == best && ExtendsAt(S, chosen, pos) ==> solutionFound
      decreases |candOrder| - pos, 1
    {
      for i := pos to |candOrder|
        invariant Valid() && best == old(best) && !solutionFound
        invariant forall S :: IdxSolution(S) && |S| == best && ExtendsAt(S, chosen, pos) ==>
          forall x :: pos <= x < i ==> candOrder[x] !in S
      {
        var candIdx := candOrder[i];
        if candIdx in forbidden {
          forall S | IdxSolution(S) && ExtendsAt(S, chosen, pos)
            ensures candIdx !in S
          {
            ForbiddenExcluded(S, forbidden, chosen, candIdx);
          }
          continue;
        }
        TryCandidate(i, count, currCoverage, forbidden, outCount, chosen);
        if solutionFound {
          return;
        }
        forall S | IdxSolution(S) && |S| == best && ExtendsAt(S, chosen, pos) &&
                   (forall x :: pos <= x < i ==> candOrder[x] !in S)
          ensures candIdx !in S
        {
          ExtendsNext(S, chosen, pos, i);
        }
      }
      forall S | IdxSolution(S) && ExtendsAt(S, chosen, pos) && (forall x :: pos <= x < |candOrder| ==> candOrder[x] !in S)
        ensures |S| <= count
      {
        AllChosen(S, chosen, pos);
      }
    }

    /** dfs at depth best: the chosen candidates are recorded when they
        cover every candidate and meet every outpost exactly. */
    method Leaf(pos: int, count: int, currCoverage: set<int>, forbidden: set<int>, outCount: array<int>,
                ghost chosen: set<int>)
      requires Valid() && !solutionFound && State(pos, count, currCoverage, forbidden, outCount, chosen)
      requires count == best
      modifies this
      ensures Valid() && best == old(best)
      ensures solutionFound <==> IdxSolution(chosen)
      ensures forall S :: IdxSolution(S) && |S| == best && ExtendsAt(S, chosen, pos) ==> solutionFound
    {
      forall S | IdxSolution(S) && |S| == best && ExtendsAt(S, chosen, pos)
        ensures S == chosen
      {
        SameSize(chosen, S);
      }
      if IdxSolution(chosen) {
        LeafComplete(currCoverage, outCount, chosen);
      }
      if currCoverage == fullCoverage {
        var valid := CountsMet(outCount);
        if valid {
          LeafIsSolution(currCoverage, outCount, chosen);
          solutionFound, found := true, chosen;
        }
      }
    }

    /** One turn of dfs's loop for the allowed candidate at position i: the
        new coverage, forbidden set and outpost counts; the candidate is
        skipped when an outpost would get more turrets than it requires, or
        when some outpost could no longer get what it needs; otherwise dfs
        goes on from position i + 1. */
    method TryCandidate(i: int, count: int, currCoverage: set<int>, forbidden: set<int>, outCount: array<int>,
                        ghost chosen: set<int>)
      requires Valid() && !solutionFound && count < best
      requires 0 <= i < |candOrder| && State(i, count, currCoverage, forbidden, outCount, chosen)
      requires candOrder[i] !in forbidden
      modifies this
      ensures Valid() && best == old(best)
      ensures forall S :: IdxSolution(S) && |S| == best && ExtendsAt(S, chosen + {candOrder[i]}, i + 1) ==> solutionFound
      decreases |candOrder| - i, 0
    {
      var candIdx := candOrder[i];
      var newCoverage := currCoverage + candCoverage[candIdx];
      var newForbidden := forbidden + {candIdx} + candConflict[candIdx];
      ghost var next := chosen + {candIdx};
      Advance(i, count, currCoverage, forbidden, outCount, chosen);
      forall S | IdxSolution(S) && next <= S
        ensures forall m :: 0 <= m < |outposts| ==>
          outCount[m] + (if candIdx in outposts[m].adj then 1 else 0) <= outposts[m].req
      {
        CountsCapped(S, outCount, chosen, candIdx);
      }
      var newOutCount, ok := AddCounts(candIdx, outCount);
      if !ok {
        return;
      }
      CountsAdvance(outCount, newOutCount, chosen, candIdx);
      forall S | IdxSolution(S) && next <= S
        ensures forall m :: 0 <= m < |outposts| ==>
          outposts[m].req - newOutCount[m] <= CountFree(outposts[m].adj, newForbidden)
      {
        NeedsMet(S, next, newForbidden, newOutCount);
      }
      ok := NeedsReachable(newOutCount, newForbidden);
      if !ok {
        return;
      }
      Dfs(i + 1, count + 1, newCoverage, newForbidden, newOutCount, next);
    }

    /** The validity loop at depth best: every outpost's count equals its
        requirement; the loop stops at the first that does not. */
    method CountsMet(outCount: array<int>) returns (valid: bool)
      requires outCount.Length == |outposts|
      ensures valid <==> forall m :: 0 <= m < |outposts| ==> outCount[m] == outposts[m].req
    {
      valid := true;
      for i := 0 to |outposts|
        invariant valid && forall m :: 0 <= m < i ==> outCount[m] == outposts[m].req
      {
        if outCount[i] != outposts[i].req {
          valid := false;
          break;
        }
      }
    }

    /** potential: the current coverage together with the coverage of every
        candidate from position pos on that is not forbidden. */
    method Potential(pos: int, currCoverage: set<int>, forbidden: set<int>) returns (potential: set<int>)
      requires IndexTables() && 0 <= pos <= |candOrder|
      ensures forall k :: k in potential <==> (k in currCoverage ||
        exists x :: pos <= x < |candOrder| && candOrder[x] !in forbidden && k in candCoverage[candOrder[x]])
    {
      potential := currCoverage;
      for i := pos to |candOrder|
        invariant forall k :: k in potential <==> (k in currCoverage ||
          exists x :: pos <= x < i && candOrder[x] !in forbidden && k in candCoverage[candOrder[x]])
      {
        var candIdx := candOrder[i];
        assert candIdx in candOrder;
        if candIdx !in forbidden {
          potential := potential + candCoverage[candIdx];
        }
      }
    }

    /** newOutCount: a fresh copy of outCount with one more turret at each
        outpost next to candIdx; false as soon as one of them would exceed
        its requirement (`goto skip_candidate`). */
    method AddCounts(candIdx: int, outCount: array<int>) returns (newOutCount: array<int>, ok: bool)
      requires IndexTables() && 0 <= candIdx < |candidates| && outCount.Length == |outposts|
      ensures fresh(newOutCount) && newOutCount.Length == |outposts|
      ensures ok ==> forall m :: 0 <= m < |outposts| ==>
        && newOutCount[m] == outCount[m] + (if candIdx in outposts[m].adj then 1 else 0)
        && (candIdx in outposts[m].adj ==> newOutCount[m] <= outposts[m].req)
      ensures !ok ==> exists m :: (0 <= m < |outposts| &&
        outCount[m] + (if candIdx in outposts[m].adj then 1 else 0) > outposts[m].req)
    {
      newOutCount := new int[outCount.Length](m requires 0 <= m < outCount.Length reads outCount => outCount[m]);
      var list := candToOutposts[candIdx];
      OutpostsOfCandidate(candIdx);
      for x := 0 to |list|
        invariant forall m :: 0 <= m < |outposts| ==> newOutCount[m] == outCount[m] + (if m in list[..x] then 1 else 0)
        invariant forall m :: 0 <= m < |outposts| && m in list[..x] ==> newOutCount[m] <= outposts[m].req
      {
        var opIdx := list[x];
        assert opIdx in list;
        assert opIdx !in list[..x];
        assert forall m :: m in list[..x + 1] <==> m in list[..x] || m == opIdx;
        newOutCount[opIdx] := newOutCount[opIdx] + 1;
        if newOutCount[opIdx] > outposts[opIdx].req {
          return newOutCount, false;
        }
      }
      assert list[..|list|] == list;
      return newOutCount, true;
    }

    /** The second check: for every outpost, the adjacent candidates that
        are not forbidden (`possible`) are at least as many as the turrets
        it still needs (`needed`). */
    method NeedsReachable(newOutCount: array<int>, newForbidden: set<int>) returns (ok: bool)
      requires newOutCount.Length == |outposts|
      ensures ok <==> forall m :: 0 <= m < |outposts| ==>
        outposts[m].req - newOutCount[m] <= CountFree(outposts[m].adj, newForbidden)
    {
      for opIdx := 0 to |outposts|
        invariant forall m :: 0 <= m < opIdx ==>
          outposts[m].req - newOutCount[m] <= CountFree(outposts[m].adj, newForbidden)
      {
        var needed := outposts[opIdx].req - newOutCount[opIdx];
        var adj := outposts[opIdx].adj;
        var possible := 0;
        for x := 0 to |adj|
          invariant possible == CountFree(adj[..x], newForbidden)
        {
          assert adj[..x + 1] == adj[..x] + [adj[x]];
          CountInAppend(adj[..x], adj[x], newForbidden);
          if adj[x] !in newForbidden {
            possible := possible + 1;
          }
        }
        assert adj[..|adj|] == adj;
        if possible < needed {
          return false;
        }
      }
      return true;
    }

    // -------------------------------------------------------------------
    // Lemmas about the search.

    /** candToOutposts[c] lists exactly the outposts next to candidate c. */
    lemma OutpostsOfCandidate(c: int)
      requires IndexTables() && 0 <= c < |candidates|
      ensures forall m :: m in candToOutposts[c] ==> 0 <= m < |outposts|
      ensures forall m :: 0 <= m < |outposts| ==> (m in candToOutposts[c] <==> c in outposts[m].adj)
    {
    }

    /** At depth best with full coverage and every outpost met, the chosen
        candidates are a placement. */
    lemma LeafIsSolution(currCoverage: set<int>, outCount: array<int>, chosen: set<int>)
      requires IndexTables() && (forall c :: c in chosen ==> 0 <= c < |candidates|)
      requires NoConflicts(chosen) && CoverageIs(currCoverage, chosen)
      requires Counted(outCount, chosen) && currCoverage == fullCoverage
      requires forall m :: 0 <= m < |outposts| ==> outCount[m] == outposts[m].req
      ensures IdxSolution(chosen)
    {
      forall k | 0 <= k < |candidates|
        ensures CoveredBy(chosen, k)
      {
        assert k in fullCoverage;
      }
    }

    /** Conversely, when the chosen candidates are a placement, the coverage
        is full and every outpost is met. */
    lemma LeafComplete(currCoverage: set<int>, outCount: array<int>, chosen: set<int>)
      requires IndexTables() && CoverageIs(currCoverage, chosen) && Counted(outCount, chosen)
      requires IdxSolution(chosen)
      ensures currCoverage == fullCoverage
      ensures forall m :: 0 <= m < |outposts| ==> outCount[m] == outposts[m].req
    {
      forall k | 0 <= k < |candidates|
        ensures k in currCoverage
      {
        assert CoveredBy(chosen, k);
      }
      forall k | k in currCoverage
        ensures k in fullCoverage
      {
      }
    }

    /** The candidates from position pos on. */
    ghost function Tail(pos: int): set<int>
      requires 0 <= pos <= |candOrder|
      decreases |candOrder| - pos
    {
      if pos == |candOrder| then {} else {candOrder[pos]} + Tail(pos + 1)
    }

    lemma {:induction false} TailIs(pos: int)
      requires 0 <= pos <= |candOrder|
      ensures |Tail(pos)| <= |candOrder| - pos
      ensures forall x :: pos <= x < |candOrder| ==> candOrder[x] in Tail(pos)
      decreases |candOrder| - pos
    {
      if pos < |candOrder| {
        TailIs(pos + 1);
      }
    }

    /** A placement that agrees with chosen before pos has at most the
        chosen candidates and one per remaining position. */
    lemma SizeBound(S: set<int>, chosen: set<int>, pos: int)
      requires IndexTables() && 0 <= pos <= |candOrder|
      requires forall c :: c in S ==> 0 <= c < |candidates|
      requires ExtendsAt(S, chosen, pos)
      ensures |S| <= |chosen| + (|candOrder| - pos)
    {
      TailIs(pos);
      forall c | c in S
        ensures c in chosen + Tail(pos)
      {
        assert c in candOrder;
        var x :| 0 <= x < |candOrder| && candOrder[x] == c;
      }
      SubsetCard(S, chosen + Tail(pos));
    }

    /** A placement that agrees with chosen before pos is covered by the
        current coverage and the candidates from pos on that are not
        forbidden: its own candidates beyond chosen are all allowed. */
    lemma PotentialCovers(S: set<int>, pos: int, currCoverage: set<int>, forbidden: set<int>, chosen: set<int>,
                          potential: set<int>)
      requires IndexTables() && IdxSolution(S) && ExtendsAt(S, chosen, pos) && 0 <= pos <= |candOrder|
      requires Placed(pos, chosen) && CoverageIs(currCoverage, chosen) && ForbiddenIs(forbidden, chosen)
      requires forall k :: k in potential <==> (k in currCoverage ||
        exists x :: pos <= x < |candOrder| && candOrder[x] !in forbidden && k in candCoverage[candOrder[x]])
      ensures potential == fullCoverage
    {
      forall k | k in potential
        ensures k in fullCoverage
      {
        if k !in currCoverage {
          var x :| pos <= x < |candOrder| && candOrder[x] !in forbidden && k in candCoverage[candOrder[x]];
          assert candOrder[x] in candOrder;
        }
      }
      forall k | k in fullCoverage
        ensures k in potential
      {
        assert CoveredBy(S, k);
        var c :| c in S && 0 <= c < |candCoverage| && k in candCoverage[c];
        if c !in chosen {
          assert c in candOrder;
          var x :| 0 <= x < |candOrder| && candOrder[x] == c;
          ForbiddenExcluded(S, forbidden, chosen, c);
          assert pos <= x && candOrder[x] !in forbidden;
        }
      }
    }

    /** A forbidden candidate that is not chosen is in no placement that
        contains the chosen ones: it conflicts with one of them. */
    lemma ForbiddenExcluded(S: set<int>, forbidden: set<int>, chosen: set<int>, c: int)
      requires IndexTables() && IdxSolution(S) && chosen <= S && ForbiddenIs(forbidden, chosen)
      ensures c in S && c !in chosen ==> c !in forbidden
    {
    }

    /** The placement's next candidate after those before i is either at i
        or later. */
    lemma ExtendsNext(S: set<int>, chosen: set<int>, pos: int, i: int)
      requires 0 <= pos <= i < |candOrder| && ExtendsAt(S, chosen, pos)
      requires forall x :: pos <= x < i ==> candOrder[x] !in S
      ensures candOrder[i] in S ==> ExtendsAt(S, chosen + {candOrder[i]}, i + 1)
    {
    }

    /** A placement with no candidate from pos on is the chosen set. */
    lemma AllChosen(S: set<int>, chosen: set<int>, pos: int)
      requires IndexTables() && 0 <= pos <= |candOrder| && ExtendsAt(S, chosen, pos)
      requires forall c :: c in S ==> 0 <= c < |candidates|
      requires forall x :: pos <= x < |candOrder| ==> candOrder[x] !in S
      ensures S == chosen
    {
      forall c | c in S
        ensures c in chosen
      {
        assert c in candOrder;
        var x :| 0 <= x < |candOrder| && candOrder[x] == c;
      }
    }

    /** Choosing the allowed candidate at position i: the new coverage and
        forbidden set describe the larger choice, which has no conflicts and
        sits before i + 1. */
    lemma Advance(i: int, count: int, currCoverage: set<int>, forbidden: set<int>, outCount: array<int>, chosen: set<int>)
      requires IndexTables() && 0 <= i < |candOrder| && State(i, count, currCoverage, forbidden, outCount, chosen)
      requires candOrder[i] !in forbidden
      ensures var c := candOrder[i];
        && 0 <= c < |candidates| && c !in chosen && |chosen + {c}| == count + 1
        && Placed(i + 1, chosen + {c})
        && NoConflicts(chosen + {c})
        && CoverageIs(currCoverage + candCoverage[c], chosen + {c})
        && ForbiddenIs(forbidden + {c} + candConflict[c], chosen + {c})
    {
      var c := candOrder[i];
      var next := chosen + {c};
      assert c in candOrder;
      forall a, b | a in next && b in next && 0 <= a < |candConflict|
        ensures b !in candConflict[a]
      {
        if a == c && b != c {
          assert !Conflicted(chosen, b) || b !in candConflict[c];
        }
      }
      forall k
        ensures CoveredBy(next, k) <==> CoveredBy(chosen, k) || k in candCoverage[c]
      {
        if CoveredBy(next, k) {
          var d :| d in next && 0 <= d < |candCoverage| && k in candCoverage[d];
        }
      }
      forall k
        ensures Conflicted(next, k) <==> Conflicted(chosen, k) || k in candConflict[c]
      {
        if Conflicted(next, k) {
          var d :| d in next && 0 <= d < |candConflict| && k in candConflict[d];
        }
      }
      forall x | i + 1 <= x < |candOrder|
        ensures candOrder[x] !in next
      {
        assert candOrder[x] != candOrder[i];
      }
    }

    /** After a successful AddCounts, the new counts are those of the larger
        choice. */
    lemma CountsAdvance(outCount: array<int>, newOutCount: array<int>, chosen: set<int>, c: int)
      requires IndexTables() && Counted(outCount, chosen) && c !in chosen
      requires newOutCount.Length == |outposts|
      requires forall m :: 0 <= m < |outposts| ==> newOutCount[m] == outCount[m] + (if c in outposts[m].adj then 1 else 0)
      ensures Counted(newOutCount, chosen + {c})
    {
      forall m | 0 <= m < |outposts|
        ensures newOutCount[m] == CountIn(outposts[m].adj, chosen + {c})
      {
        CountInAdd(outposts[m].adj, chosen, c);
      }
    }

    /** In a placement containing chosen + {c}, no outpost gets more than it
        requires, so neither do the counts after choosing c. */
    lemma CountsCapped(S: set<int>, outCount: array<int>, chosen: set<int>, c: int)
      requires IndexTables() && IdxSolution(S) && chosen + {c} <= S && c !in chosen && Counted(outCount, chosen)
      ensures forall m :: 0 <= m < |outposts| ==>
        outCount[m] + (if c in outposts[m].adj then 1 else 0) <= outposts[m].req
    {
      forall m | 0 <= m < |outposts|
        ensures outCount[m] + (if c in outposts[m].adj then 1 else 0) <= outposts[m].req
      {
        var adj := outposts[m].adj;
        CountInAdd(adj, chosen, c);
        CountInSplit(adj, chosen + {c}, S - (chosen + {c}));
        assert S == (chosen + {c}) + (S - (chosen + {c}));
      }
    }

    /** In a placement containing next, the candidates beyond next are not
        forbidden, so every outpost can still get what it needs. */
    lemma NeedsMet(S: set<int>, next: set<int>, newForbidden: set<int>, newOutCount: array<int>)
      requires IndexTables() && IdxSolution(S) && next <= S
      requires ForbiddenIs(newForbidden, next) && Counted(newOutCount, next)
      ensures forall m :: 0 <= m < |outposts| ==>
        outposts[m].req - newOutCount[m] <= CountFree(outposts[m].adj, newForbidden)
    {
      var rest := S - next;
      forall k | k in rest
        ensures k !in newForbidden
      {
      }
      forall m | 0 <= m < |outposts|
        ensures outposts[m].req - newOutCount[m] <= CountFree(outposts[m].adj, newForbidden)
      {
        var adj := outposts[m].adj;
        CountInSplit(adj, next, rest);
        assert S == next + rest;
        CountInFree(adj, rest, newForbidden);
      }
    }
    // -------------------------------------------------------------------
    // Candidate indices and cells.

    /** The cells of the candidates in X. */
    ghost function CellsOf(X: set<int>): set<Cell>
      requires forall c :: c in X ==> 0 <= c < |candidates|
    {
      set c | c in X :: candidates[c]
    }

    /** The candidates whose cells are in S. */
    ghost function IndicesOf(S: set<Cell>): set<int>
    {
      set c | 0 <= c < |candidates| && candidates[c] in S
    }

    /** The candidates of X below n. */
    ghost function Below(X: set<int>, n: int): set<int>
    {
      set c | c in X && c < n
    }

    /** Different candidates sit on different cells. */
    lemma {:induction false} CellsOfBelow(X: set<int>, n: int)
      requires Geometry() && (forall c :: c in X ==> 0 <= c < |candidates|) && 0 <= n <= |candidates|
      ensures |CellsOf(Below(X, n))| == |Below(X, n)|
    {
      if n == 0 {
        assert Below(X, n) == {};
        assert CellsOf(Below(X, n)) == {};
      } else {
        var c := n - 1;
        CellsOfBelow(X, c);
        if c in X {
          BelowAdd(X, c);
        } else {
          assert Below(X, n) == Below(X, c);
        }
      }
    }

    /** Candidate c adds its own cell to the cells of the candidates of X
        below it. */
    lemma BelowAdd(X: set<int>, c: int)
      requires Geometry() && (forall d :: d in X ==> 0 <= d < |candidates|) && c in X
      ensures Below(X, c + 1) == Below(X, c) + {c}
      ensures candidates[c] !in CellsOf(Below(X, c))
      ensures CellsOf(Below(X, c + 1)) == CellsOf(Below(X, c)) + {candidates[c]}
    {
      forall d | d in Below(X, c)
        ensures candidates[d] != candidates[c]
      {
        assert candIndex[candidates[d].0][candidates[d].1] == d;
      }
      assert Below(X, c + 1) == Below(X, c) + {c};
    }

    lemma CellsOfCard(X: set<int>)
      requires Geometry() && forall c :: c in X ==> 0 <= c < |candidates|
      ensures |CellsOf(X)| == |X|
    {
      CellsOfBelow(X, |candidates|);
      assert Below(X, |candidates|) == X;
    }

    /** A cell belongs to the candidates of X exactly when it is a '.' cell
        whose index is in X. */
    lemma CellOfIndex(X: set<int>, q: Cell)
      requires Geometry() && forall c :: c in X ==> 0 <= c < |candidates|
      ensures q in CellsOf(X) <==> g.IsEmpty(q) && candIndex[q.0][q.1] in X
    {
      if q in CellsOf(X) {
        var c :| c in X && candidates[c] == q;
      }
      if g.IsEmpty(q) && candIndex[q.0][q.1] in X {
        assert candidates[candIndex[q.0][q.1]] == q;
      }
    }

    /** The neighbours of o in S, counted in the order of problemA.cpp's
        direction tables. */
    ghost function NeighboursVia(o: Cell, S: set<Cell>, n: int): nat
      requires 0 <= n <= 4
    {
      if n == 0 then 0 else NeighboursVia(o, S, n - 1) + (if Step(o, ADir(n - 1), 1) in S then 1 else 0)
    }

    /** Counting the chosen candidates on an outpost's adjacency list counts
        its neighbours among their cells. */
    lemma {:induction false} AdjCount(o: Cell, X: set<int>, n: int)
      requires Geometry() && (forall c :: c in X ==> 0 <= c < |candidates|) && 0 <= n <= 4
      ensures CountIn(AdjList(g, candIndex, o, n), X) == NeighboursVia(o, CellsOf(X), n)
    {
      if n > 0 {
        AdjCount(o, X, n - 1);
        var q := Step(o, ADir(n - 1), 1);
        var prev := AdjList(g, candIndex, o, n - 1);
        assert NeighboursVia(o, CellsOf(X), n) == NeighboursVia(o, CellsOf(X), n - 1) + (if q in CellsOf(X) then 1 else 0);
        CellOfIndex(X, q);
        if g.IsEmpty(q) {
          assert AdjList(g, candIndex, o, n) == prev + [candIndex[q.0][q.1]];
          CountInAppend(prev, candIndex[q.0][q.1], X);
        } else {
          assert AdjList(g, candIndex, o, n) == prev;
        }
      }
    }

    /** The order in which the four neighbours are visited does not change
        their number. */
    lemma NeighboursReordered(o: Cell, S: set<Cell>)
      ensures NeighboursVia(o, S, 4) == g.NeighboursIn(o, S, 4)
    {
      assert NeighboursVia(o, S, 4) == NeighboursVia(o, S, 3) + (if Step(o, 3, 1) in S then 1 else 0);
      assert NeighboursVia(o, S, 3) == NeighboursVia(o, S, 2) + (if Step(o, 1, 1) in S then 1 else 0);
      assert NeighboursVia(o, S, 2) == NeighboursVia(o, S, 1) + (if Step(o, 2, 1) in S then 1 else 0);
      assert g.NeighboursIn(o, S, 4) == g.NeighboursIn(o, S, 3) + (if Step(o, 3, 1) in S then 1 else 0);
      assert g.NeighboursIn(o, S, 3) == g.NeighboursIn(o, S, 2) + (if Step(o, 2, 1) in S then 1 else 0);
      assert g.NeighboursIn(o, S, 2) == g.NeighboursIn(o, S, 1) + (if Step(o, 1, 1) in S then 1 else 0);
    }

    /** A placement as the search sees it is a placement of turrets on the
        grid, of the same size. */
    lemma ToCells(X: set<int>)
      requires Geometry() && IndexTables() && IdxSolution(X)
      ensures IsSolution(g, CellsOf(X)) && |CellsOf(X)| == |X|
    {
      var S := CellsOf(X);
      CellsOfCard(X);
      forall p | p in S
        ensures g.IsEmpty(p)
      {
        var c :| c in X && candidates[c] == p;
      }
      forall p, q | p in S && q in S && p != q
        ensures !g.Sees(Rule, p, q)
      {
        var a :| a in X && candidates[a] == p;
        var b :| b in X && candidates[b] == q;
        assert b !in candConflict[a];
      }
      forall a, b | 0 <= a < g.R && 0 <= b < g.C && g.cells[a][b] == '.'
        ensures Covered(g, Rule, S, (a, b))
      {
        var k := candIndex[a][b];
        assert CoveredBy(X, k);
        var c :| c in X && 0 <= c < |candCoverage| && k in candCoverage[c];
        assert candidates[c] in S && g.Sees(Rule, candidates[c], (a, b));
      }
      forall o | g.IsOutpost(o)
        ensures g.NeighboursIn(o, S, 4) == Digit(g.At(o))
      {
        assert Listed(outposts, o);
        var m :| 0 <= m < |outposts| && (outposts[m].r, outposts[m].c) == o;
        assert Describes(g, candIndex, outposts[m]);
        AdjCount(o, X, 4);
        NeighboursReordered(o, S);
      }
    }

    /** A placement of turrets on the grid is one the search can find, of the
        same size. */
    lemma ToIndices(S: set<Cell>)
      requires Geometry() && IndexTables() && IsSolution(g, S)
      ensures IdxSolution(IndicesOf(S)) && |IndicesOf(S)| == |S|
    {
      var X := IndicesOf(S);
      forall p | p in S
        ensures p in CellsOf(X)
      {
        assert candidates[candIndex[p.0][p.1]] == p;
      }
      forall p | p in CellsOf(X)
        ensures p in S
      {
        var c :| c in X && candidates[c] == p;
      }
      assert CellsOf(X) == S;
      CellsOfCard(X);
      forall a, b | a in X && b in X && 0 <= a < |candConflict|
        ensures b !in candConflict[a]
      {
        if a != b {
          assert candIndex[candidates[a].0][candidates[a].1] == a;
          assert candidates[a] != candidates[b];
        }
      }
      forall k | 0 <= k < |candidates|
        ensures CoveredBy(X, k)
      {
        var q := candidates[k];
        assert Covered(g, Rule, S, q);
        var t :| t in S && g.Sees(Rule, t, q);
        var c := candIndex[t.0][t.1];
        assert candidates[c] == t && c in X && k in candCoverage[c];
      }
      forall m | 0 <= m < |outposts|
        ensures CountIn(outposts[m].adj, X) == outposts[m].req
      {
        var o := (outposts[m].r, outposts[m].c);
        assert Describes(g, candIndex, outposts[m]);
        AdjCount(o, X, 4);
        NeighboursReordered(o, S);
      }
    }
  }

  /** One test case of main without its input and output, with the two
      corrections: an obstacle-free grid needs min(R, C) turrets, and the
      deepening starts at zero turrets. The least number of turrets of a
      placement, or -1 for "noxus will rise!". */
  method Solve(g: Grid) returns (result: int)
    requires g.WellFormed()
    ensures result >= -1
    ensures result >= 0 ==>
      && (exists S :: IsSolution(g, S) && |S| == result)
      && (forall S :: IsSolution(g, S) ==> result <= |S|)
    ensures result == -1 ==> forall S :: !IsSolution(g, S)
  {
    var candidates, candIndex := IndexCandidates(g);
    var hasObstacle := HasObstacle(g);
    if !hasObstacle {
      ObstacleFreeMinimum(g);
      return Min(g.R, g.C);
    }
    var search := new Search(g, candidates, candIndex);
    result := search.Deepen(0);
    forall S | IsSolution(g, S)
      ensures 0 <= result <= |S|
    {
      search.ToIndices(S);
    }
    if result >= 0 {
      search.ToCells(search.found);
    }
  }

  /** One test case of main as problemA.cpp writes it: max(R, C) for a grid
      without walls and outposts, and otherwise the deepening from one
      turret, so that a placement with no turret is never reported. */
  method SolveAsWritten(g: Grid) returns (result: int)
    requires g.WellFormed()
    ensures ObstacleFree(g) ==> result == Max(g.R, g.C)
    ensures !ObstacleFree(g) ==> result == -1 || 1 <= result
    ensures !ObstacleFree(g) && result >= 1 ==>
      && (exists S :: IsSolution(g, S) && |S| == result)
      && (forall S :: IsSolution(g, S) ==> |S| == 0 || result <= |S|)
    ensures !ObstacleFree(g) && result == -1 ==> forall S :: IsSolution(g, S) ==> |S| == 0
  {
    var candidates, candIndex := IndexCandidates(g);
    var hasObstacle := HasObstacle(g);
    if !hasObstacle {
      return Max(g.R, g.C);
    }
    var search := new Search(g, candidates, candIndex);
    result := search.Deepen(1);
    forall S | IsSolution(g, S) && 1 <= |S|
      ensures 0 <= result <= |S|
    {
      search.ToIndices(S);
    }
    if result >= 0 {
      search.ToCells(search.found);
    }
  }
}
