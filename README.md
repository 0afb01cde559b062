# Turret placement on a grid, four ways

The repository solves one puzzle four times. The grid has R rows and C columns of
`#` (wall), `.` (empty) and the digits `0`..`4` (outposts). A turret stands on an
empty cell and sees its own cell, then along each of the four orthogonal rays up
to the first cell that stops the ray. A placement is accepted when:

- every empty cell is seen;
- in three of the four variants, no turret sees another;
- every outpost has exactly its digit's number of turrets next to it.

Each solver reports the fewest turrets of an accepted placement, or
"noxus will rise!" when there is none.

The model keeps the four programs apart, each with its own stop rule and its own
acceptance test:

| module | program | search | a ray stops at |
|---|---|---|---|
| `Claude` (`claude.dfy`) | `Claude.cpp` | include/exclude over the list of empty cells, pushing and popping a turret list; a pre-check on outposts; "forced" cells tried first | wall, outpost, edge |
| `Primo` (`primo.dfy`) | `primo.cpp` | include/exclude over all cells in row-major order, on copied matrices, with a conflict check | wall, outpost, edge |
| `Tp1` (`tp1.dfy`) | `tp1.cpp` | as `primo.cpp` but with no conflict check | wall, edge (passes over outposts) |
| `ProblemA`, `ProblemASearch` (`problem_a.dfy`, `problem_a_search.dfy`) | `PROBLEM_A/problemA.cpp` | candidate indexing, coverage and conflict sets, outpost adjacency lists, an order by coverage size, and an iterative-deepening depth-first search with three prunings | any non-`.` cell, edge |

The shared modules are:

- `GridModel` (`grid.dfy`) holds the grid, cells, the four directions, rays and sight.
- `Placement` (`placement.dfy`) holds coverage, outpost counts and independence for any stop rule, and compares the rules.
- `RowMajor` (`row_major.dfy`) holds what `primo.cpp` and `tp1.cpp` share: the outpost tables, the leaf test, and copying a placement before adding a turret.

How the program state is represented:

- Global state becomes the fields of a class per program:
  - `min_turrets` and the `turrets` vector in `Claude.cpp`;
  - `minTurrets` in `primo.cpp` and `tp1.cpp`;
  - `solutionFound`, `best` and the tables captured by the `dfs` lambda in `problemA.cpp`.
- The matrices the searches copy or mark (`covered`, `placedTurrets`, `tempCovered`, `adj_count`, `uniqueCoverage` and the `candidates` marks of `Claude.cpp`) are `array2` values. Tables written once while reading the grid and never changed afterwards (the grid itself, `requiredTurrets`, `candIndex`) are sequences.
- A `bitset` is a `set<int>` of candidate indices.
- The `outCount` vector is an `array<int>` that is copied before it changes.
- `isValid(r, c)` of `primo.cpp` and `tp1.cpp` is the predicate `GridModel.Grid.In`.

Each search is proved sound and complete against a ghost specification of an
accepted placement (`IsSolution` in each module):

- the number it reports is the size of an accepted placement;
- no accepted placement is smaller.

## Model

| member | source | states |
|---|---|---|
| GridModel.RayStops | Claude.cpp:47-55 | once a walk has passed k clear cells and the next one stops it, the ray is clear for exactly the prefixes of length at most k |
| GridModel.SeesSymmetric | primo.cpp:85-101 | between two cells that do not stop rays, p sees q exactly when q sees p, so testing a conflict from either turret gives the same answer |
| GridModel.KeyOfIndex | primo.cpp:116 | `idx / C, idx % C` is an in-grid cell whose row-major index is idx again |
| GridModel.MarkSight | primo.cpp:38-50 | placeTurret sets exactly the cells the turret sees under the stop rule, including its own cell, and leaves every other entry as it was (tp1.cpp uses it with the walls-only rule) |
| GridModel.MarkRay | primo.cpp:42-48 | one direction of placeTurret: the walk stops at the first blocking cell, the ray is clear up to it, and exactly the cells before it are set |
| GridModel.PrefixIsRay | tp1.cpp:34-39 | the cells a walk marked before it was stopped are exactly the cells on that ray |
| GridModel.AllEmptyMarked | primo.cpp:55-63 | allCovered returns true exactly when every `.` cell is marked |
| Placement.CoveredAdd | primo.cpp:129-132 | adding a turret at p covers exactly what was covered before plus what p sees |
| Placement.NeighboursAdd | Claude.cpp:133-146 | adding a turret raises an outpost's neighbour count by one when the turret is orthogonally adjacent to it, and leaves it unchanged otherwise |
| Placement.NeighboursMono | Claude.cpp:165-178 | a subset of the empty cells has no more neighbours of an outpost than the whole set |
| Placement.ClearRayWeaker | tp1.cpp:37 | a ray that is clear under a stop rule stays clear under a rule that stops at no more cells |
| Placement.SeesWeaker | tp1.cpp:37 | what a turret sees under a stop rule it also sees under a rule that stops at no more cells |
| Placement.RulesOnWellFormed | PROBLEM_A/problemA.cpp:86 | on a grid of `#`, `.` and digits, "not `.`" and "wall or outpost" stop at the same cells, and "wall" stops at no more cells than either |
| Placement.SightOnWellFormed | PROBLEM_A/problemA.cpp:86 | on such a grid, sight under problemA.cpp's rule equals sight under Claude.cpp's and primo.cpp's rule, and that sight implies sight under tp1.cpp's walls-only rule |
| RowMajor.ExtendsStep | primo.cpp:124-133 | passing the cell with row-major index idx splits the solutions that agree with T before idx into those without the cell (option 1) and those with it (option 2) |
| RowMajor.ExtendsStart | primo.cpp:165 | every placement agrees with the empty placement on the cells before index 0 |
| RowMajor.ExtendsEnd | primo.cpp:110 | once idx is R*C, the only placement that agrees with T before idx is T |
| RowMajor.ScanOutposts | primo.cpp:151-159 | the reading loop lists exactly the outposts, and the requirement matrix holds each outpost's digit and 0 on every other cell |
| RowMajor.ValidOutpostPlacement | primo.cpp:68-82 | validOutpostPlacement returns true exactly when every outpost's count of adjacent placed turrets equals its requirement |
| RowMajor.CheckLeaf | primo.cpp:110-113 | the test at the end of the grid returns true exactly when the placement meets every outpost and sees every empty cell |
| RowMajor.CopyWithTurret | primo.cpp:129-132 | the new matrices are fresh copies, so the caller's never change; they describe T plus (r, c): placed turrets and covered cells |
| Claude.InLineIsSight | Claude.cpp:62-92 | the same-row or same-column test with no wall or outpost strictly between agrees with sight along the rays whenever the far cell is not a wall or outpost |
| Claude.DistinctCard | Claude.cpp:254 | `turrets.size()` is the size of the placement, because the list has no repeated cell |
| Claude.AdjCountIsNeighbours | Claude.cpp:133-146 | the adjacency count a turret list builds at a cell is the number of turrets orthogonally next to that cell |
| Claude.Solver.constructor | Claude.cpp:315-328 | the reading loop lists exactly the empty cells in row-major order and exactly the outposts; it starts with an empty list and INF |
| Claude.Solver.GetVisibility | Claude.cpp:40-59 | four lists, each starting at the turret's own cell; every later entry is in the grid and is neither a wall nor an outpost; a cell appears in some list exactly when the turret sees it; list d is the walk in direction d, in walk order, ending before the first blocker or the edge |
| Claude.Solver.RowBlocked | Claude.cpp:67-75 | true exactly when a wall or outpost lies strictly between the two columns of the row |
| Claude.Solver.ColBlocked | Claude.cpp:79-87 | true exactly when a wall or outpost lies strictly between the two rows of the column |
| Claude.Solver.ConflictsWithExisting | Claude.cpp:62-92 | true exactly when some turret of the list shares the row or column of (x, y) with no wall or outpost strictly between |
| Claude.Solver.AllCellsCovered | Claude.cpp:95-127 | true exactly when every `.` cell is a turret cell or lies on a ray of some turret |
| Claude.Solver.OutpostsSatisfied | Claude.cpp:130-158 | for a list without repeats, true exactly when every outpost has as many adjacent turrets as its digit |
| Claude.Solver.CountNeighbours | Claude.cpp:136-145 | one turret adds one to the count of each outpost orthogonally next to it and changes no other entry |
| Claude.Solver.CheckOutpostRequirements | Claude.cpp:161-182 | false exactly when some outpost's digit exceeds its number of in-grid `.` neighbours |
| Claude.Solver.PrecheckSound | Claude.cpp:290-292 | when the pre-check fails, no placement is accepted, so answering -1 without a search is right |
| Claude.Solver.SeersUpToNext | Claude.cpp:194-223 | scanning the k-th empty cell adds it to a cell's set of seers exactly when it can see that cell |
| Claude.Solver.CanSee | Claude.cpp:197-218 | canSee is true exactly when the two cells share a row or column with no wall or outpost strictly between |
| Claude.Solver.GetOptimalCandidates | Claude.cpp:185-242 | a cell is marked exactly when it is the only empty cell that can see some `.` cell |
| Claude.Solver.CollectAllSeers | Claude.cpp:190-225 | uniqueCoverage of a `.` cell is the set of empty cells that can see it; it is empty for every other cell |
| Claude.Solver.MarkRow | Claude.cpp:231-238 | after one row, a cell is marked exactly when it was already marked or is the only seer of a `.` cell in that row |
| Claude.Solver.CollectSeers | Claude.cpp:194-223 | for one `.` cell, the empty cells that see it are added to its entry, and no other entry changes |
| Claude.Solver.MarkedIsForced | Claude.cpp:229-237 | a marked cell is the `.` cell itself that nothing else sees, so every accepted placement contains it; the marks only reorder the branches |
| Claude.Solver.PushKeepsPath | Claude.cpp:267-269 | pushing an empty cell that is in line with no turret of the list keeps the list free of repeats and of two turrets that see each other |
| Claude.Solver.ConflictExcludes | Claude.cpp:275 | when the cell is in line with a turret of the list, no accepted placement contains the list plus that cell, so skipping the push loses nothing |
| Claude.Solver.Backtrack | Claude.cpp:245-281 | the turret list is the same on return; min_turrets never grows and stays the size of an accepted placement; it ends at most the size of every accepted placement that agrees with the list on the first idx empty cells |
| Claude.Solver.SkipThenPlace | Claude.cpp:273-280 | the unmarked branch order: after both branches, the list is unchanged and min_turrets bounds every accepted placement that agrees with the list |
| Claude.Solver.PlaceThenSkip | Claude.cpp:266-272 | the marked branch order, with the same guarantees as the other order |
| Claude.Solver.ExtendsStep | Claude.cpp:259-280 | an accepted placement that agrees with the list on the first idx cells agrees with the list plus cell idx, or with the list alone, on the first idx+1 cells |
| Claude.Solver.Finish | Claude.cpp:252-256 | at the end of the list, min_turrets takes the list's size only when the list covers every cell and meets every outpost; otherwise it is unchanged |
| Claude.Solver.TryTurret | Claude.cpp:275-279 | the guarded push: min_turrets bounds every accepted placement that contains the list plus cell idx and agrees with it so far |
| Claude.Solver.PlaceTurret | Claude.cpp:276-278 | push, recurse, pop: the list is unchanged on return, and min_turrets bounds the accepted placements that contain the pushed cell |
| Claude.Solver.Solve | Claude.cpp:283-303 | a result of 0 or more is the size of an accepted placement and no accepted placement is smaller; -1 means every accepted placement has at least INF turrets |
| Claude.Solver.Search | Claude.cpp:297-302 | the search from an empty list, mapping INF to -1, with the same guarantee as solve |
| Claude.Run | Claude.cpp:312-337 | one test case: the least size of an accepted placement, or -1 when there is none below INF |
| Claude.SightIsVisible | Claude.cpp:43-56 | every cell a turret sees appears in one of the four walked lists |
| Claude.VisibleIsSight | Claude.cpp:43-56 | every cell in a walked list is seen by the turret |
| Claude.ListSeen | Claude.cpp:47-55 | each entry of one walked list is seen by the turret |
| Primo.Solver.constructor | primo.cpp:145-162 | the per-test-case setup: outpost tables of the grid and minTurrets = INF |
| Primo.Solver.IsTurretConflict | primo.cpp:88-101 | true exactly when a placed turret lies on a ray from (r, c) before the ray stops |
| Primo.Solver.Solve | primo.cpp:106-135 | minTurrets never grows and stays the size of an accepted placement; it ends at most the size of every accepted placement that agrees with T before idx |
| Primo.Solver.PlaceHere | primo.cpp:127-134 | option 2: minTurrets bounds every accepted placement that agrees with T before idx and holds a turret on (r, c) |
| Primo.Solver.AddIndependent | primo.cpp:128-131 | a turret added where no placed turret is in sight keeps the turrets mutually invisible, and the placement grows by one |
| Primo.RayConflict | primo.cpp:89-99 | one direction of isTurretConflict: true only when a placed turret is in sight; false only when no placed turret is on that ray |
| Primo.Run | primo.cpp:144-171 | one test case: the least size of an accepted placement, or -1 when there is none below INF |
| Tp1.Solver.constructor | tp1.cpp:106-123 | the per-test-case setup: outpost tables of the grid and minTurrets = INF |
| Tp1.Solver.Solve | tp1.cpp:70-99 | minTurrets never grows and stays the size of an accepted placement (turrets may see each other); it ends at most the size of every accepted placement that agrees with T before idx |
| Tp1.Solver.PlaceHere | tp1.cpp:91-98 | the unguarded placement: minTurrets bounds every accepted placement that agrees with T before idx and holds (r, c) |
| Tp1.Run | tp1.cpp:105-134 | one test case: the least size of an accepted placement, or -1 when there is none below INF |
| ProblemA.IndexCandidates | PROBLEM_A/problemA.cpp:44-56 | candidates lists every `.` cell once, in row-major order; candIndex maps each `.` cell to its position and every other cell to -1 |
| ProblemA.IndexRow | PROBLEM_A/problemA.cpp:48-54 | one row of the indexing: the existing candidates are kept, the row's `.` cells are appended in column order, and the row's indices point at them |
| ProblemA.CandidateInjective | PROBLEM_A/problemA.cpp:49-53 | two candidate positions holding the same cell are the same position |
| ProblemA.HasObstacle | PROBLEM_A/problemA.cpp:58-67 | hasObstacle is true exactly when some cell is not `.` |
| ProblemA.DiagonalIs | PROBLEM_A/problemA.cpp:68-69 | the diagonal placement holds min(R, C) cells, all of the form (i, i) |
| ProblemA.RowsColsCard | PROBLEM_A/problemA.cpp:68-69 | a placement uses at most as many rows and as many columns as it has turrets |
| ProblemA.OpenSight | PROBLEM_A/problemA.cpp:68-69 | on a grid with no obstacle, any two cells in one row or one column see each other |
| ProblemA.DiagonalSolution | PROBLEM_A/problemA.cpp:68-69 | on a grid with no obstacle, the diagonal of min(R, C) turrets is an accepted placement |
| ProblemA.FewestTurrets | PROBLEM_A/problemA.cpp:68-69 | on a grid with no obstacle, every accepted placement has at least min(R, C) turrets |
| ProblemA.EveryColumnUsed | PROBLEM_A/problemA.cpp:68-69 | on a grid with no obstacle, if some row holds no turret then every column holds one |
| ProblemA.ObstacleFreeMinimum | PROBLEM_A/problemA.cpp:68-69 | on a grid with no obstacle, the least size of an accepted placement is min(R, C) |
| ProblemA.OpenRow | PROBLEM_A/problemA.cpp:68-69 | on a single open row, one turret is accepted and no accepted placement has more than one |
| ProblemA.MaxShortcutCounterexample | PROBLEM_A/problemA.cpp:68-69 | on the 1x3 grid `...`, max(R, C) is 3, but one turret is accepted and every accepted placement has at most one |
| ProblemA.EmptyPlacementCounterexample | PROBLEM_A/problemA.cpp:211 | on the 1x1 grid `#`, there is an obstacle and no empty cell, and the empty placement is accepted |
| ProblemA.BuildCoverage | PROBLEM_A/problemA.cpp:73-93 | candCoverage[i] holds exactly the candidates candidate i sees: itself and those on its four rays up to the first non-`.` cell |
| ProblemA.CoverRay | PROBLEM_A/problemA.cpp:84-91 | one direction's walk adds exactly the candidates on that ray to the set |
| ProblemA.CoverStep | PROBLEM_A/problemA.cpp:86-90 | one step of the walk onto a `.` cell keeps the ray clear, stays within the grid, and adds exactly that cell's index |
| ProblemA.OnlyCandidateAt | PROBLEM_A/problemA.cpp:87 | candIndex of a `.` cell is the only position whose candidate is that cell |
| ProblemA.BuildConflict | PROBLEM_A/problemA.cpp:94-98 | candConflict[i] is candCoverage[i] without i |
| ProblemA.ConflictSymmetric | PROBLEM_A/problemA.cpp:94-98 | j conflicts with i exactly when they differ and i sees j, and the conflict relation is symmetric |
| ProblemA.BuildFullCoverage | PROBLEM_A/problemA.cpp:100-105 | fullCoverage holds exactly the indices 0..E-1 |
| ProblemA.ListedAppend | PROBLEM_A/problemA.cpp:124 | an outpost already listed stays listed when another outpost is appended |
| ProblemA.BuildOutposts | PROBLEM_A/problemA.cpp:107-127 | the outposts are listed once each in row-major order, each with its position, its digit and its adjacency list |
| ProblemA.AdjacentCandidates | PROBLEM_A/problemA.cpp:117-123 | adj walks the four neighbours in the program's direction order and lists the index of each `.` neighbour |
| ProblemA.AdjListIs | PROBLEM_A/problemA.cpp:117-123 | an adjacency list has at most four entries, no repeats, and holds exactly the candidates orthogonally next to the outpost |
| ProblemA.AdjacentDir | PROBLEM_A/problemA.cpp:115-118 | a cell is orthogonally adjacent to o exactly when it is one step from o in one of the four directions of dr2/dc2 |
| ProblemA.AdjListUpTo | PROBLEM_A/problemA.cpp:117-123 | after the first n directions, adj has at most n entries, no repeats, and exactly the candidates one step away in those directions |
| ProblemA.OutpostsOfIs | PROBLEM_A/problemA.cpp:131-134 | the outposts collected for a candidate from the first n outposts are exactly those whose adj contains it, in increasing order |
| ProblemA.BuildCandToOutposts | PROBLEM_A/problemA.cpp:129-135 | candToOutposts is the exact inverse of adj: m is listed for c exactly when c is in adj of outpost m; each list is increasing |
| ProblemA.InsertionPoint | PROBLEM_A/problemA.cpp:142-144 | the slot before which every candidate covers at least as much and after which every candidate covers less |
| ProblemA.InsertKeepsOrder | PROBLEM_A/problemA.cpp:142-144 | inserting at that slot keeps the order by non-increasing coverage |
| ProblemA.OrderCandidates | PROBLEM_A/problemA.cpp:137-145 | candOrder is a permutation of 0..E-1 ordered by non-increasing coverage count |
| ProblemASearch.CountInAppend | PROBLEM_A/problemA.cpp:197-199 | extending an adjacency list by one entry adds one to the count of entries in a set, or one to the count of entries outside it |
| ProblemASearch.CountInAdd | PROBLEM_A/problemA.cpp:189-190 | choosing one more candidate raises an outpost's count by one exactly when the candidate is in its list |
| ProblemASearch.CountInSplit | PROBLEM_A/problemA.cpp:197-199 | entries in either of two disjoint sets are counted by adding the two counts |
| ProblemASearch.CountInFree | PROBLEM_A/problemA.cpp:194-201 | the entries in a set disjoint from forbidden are at most the entries outside forbidden, the `possible` of the pruning |
| ProblemASearch.Search.constructor | PROBLEM_A/problemA.cpp:73-153 | builds every table with its properties: coverage, conflict, full coverage, outposts, candToOutposts and the ordered candidates; solutionFound is false and best is INT_MAX |
| ProblemASearch.Search.Deepen | PROBLEM_A/problemA.cpp:211-224 | the deepening loop from k = first: the result is -1 or the first k for which a placement of size k is found; it is at most the size of every accepted placement of size first or more |
| ProblemASearch.Search.StartState | PROBLEM_A/problemA.cpp:214-218 | empty coverage, empty forbidden set and zero counts describe the empty choice at position 0 |
| ProblemASearch.Search.SolutionSize | PROBLEM_A/problemA.cpp:211 | an accepted placement has at most E turrets, so trying k up to E is enough |
| ProblemASearch.Search.Dfs | PROBLEM_A/problemA.cpp:155-209 | solutionFound is never reset and is set only with a recorded accepted placement of size best; on return it is set whenever some accepted placement of size best extends the current choice |
| ProblemASearch.Search.Branch | PROBLEM_A/problemA.cpp:179-208 | the loop over positions: when it ends without success, no accepted placement of size best extends the current choice |
| ProblemASearch.Search.Leaf | PROBLEM_A/problemA.cpp:158-169 | at count == best, solutionFound is set exactly when the chosen candidates form an accepted placement |
| ProblemASearch.Search.TryCandidate | PROBLEM_A/problemA.cpp:183-205 | after choosing candidate candOrder[i], solutionFound is set whenever some accepted placement of size best extends the new choice from i+1 |
| ProblemASearch.Search.CountsMet | PROBLEM_A/problemA.cpp:160-163 | valid is true exactly when every outpost's count equals its req |
| ProblemASearch.Search.Potential | PROBLEM_A/problemA.cpp:171-176 | potential is the current coverage together with the coverage of every non-forbidden candidate from position pos on |
| ProblemASearch.Search.AddCounts | PROBLEM_A/problemA.cpp:188-193 | on success, the copy has one more for each outpost next to the candidate, none of those above req, and the caller's array is untouched; on failure, some outpost would exceed req |
| ProblemASearch.Search.NeedsReachable | PROBLEM_A/problemA.cpp:194-202 | true exactly when every outpost's remaining need is at most its number of non-forbidden adjacent candidates |
| ProblemASearch.Search.OutpostsOfCandidate | PROBLEM_A/problemA.cpp:189 | the outposts listed in candToOutposts for a candidate are in range, and are exactly those whose adj holds it |
| ProblemASearch.Search.LeafIsSolution | PROBLEM_A/problemA.cpp:159-166 | a choice without conflicts, covering everything and meeting every count exactly, is an accepted placement |
| ProblemASearch.Search.LeafComplete | PROBLEM_A/problemA.cpp:158-167 | conversely, when the choice is an accepted placement, the coverage is full and every count equals req, so the leaf records it |
| ProblemASearch.Search.TailIs | PROBLEM_A/problemA.cpp:170 | the candidates from position pos on number at most nOrder - pos |
| ProblemASearch.Search.SizeBound | PROBLEM_A/problemA.cpp:170 | an extension of the choice at pos has at most count + (nOrder - pos) turrets, so the size pruning loses nothing |
| ProblemASearch.Search.PotentialCovers | PROBLEM_A/problemA.cpp:171-177 | if an accepted placement extends the choice, the potential coverage is full, so the potential pruning loses nothing |
| ProblemASearch.Search.ForbiddenExcluded | PROBLEM_A/problemA.cpp:181 | a candidate of an accepted placement that holds the chosen set, and is not itself chosen, is not in forbidden |
| ProblemASearch.Search.ExtendsNext | PROBLEM_A/problemA.cpp:179-204 | a placement that agrees with the choice at pos, holds none of positions pos..i-1 and holds candOrder[i] agrees with the choice plus candOrder[i] at i+1 |
| ProblemASearch.Search.AllChosen | PROBLEM_A/problemA.cpp:179-208 | an extension that holds none of the remaining candidates is the choice itself |
| ProblemASearch.Search.Advance | PROBLEM_A/problemA.cpp:183-186 | newCoverage and newForbidden describe the choice plus the new candidate, which stays free of conflicts and has one more element |
| ProblemASearch.Search.CountsAdvance | PROBLEM_A/problemA.cpp:188-190 | the copied counts, one higher next to the new candidate, count the neighbours of the new choice |
| ProblemASearch.Search.CountsCapped | PROBLEM_A/problemA.cpp:191-192 | if an accepted placement holds the choice and the new candidate, no outpost's new count exceeds req, so the first skip loses nothing |
| ProblemASearch.Search.NeedsMet | PROBLEM_A/problemA.cpp:194-201 | if an accepted placement holds the new choice, every outpost's remaining need is at most its non-forbidden adjacent candidates, so the second skip loses nothing |
| ProblemASearch.Search.CellsOfBelow | PROBLEM_A/problemA.cpp:49-53 | distinct candidate indices below n name distinct cells |
| ProblemASearch.Search.BelowAdd | PROBLEM_A/problemA.cpp:49-53 | a chosen index c adds exactly candidate c's cell, which no smaller chosen index names |
| ProblemASearch.Search.CellsOfCard | PROBLEM_A/problemA.cpp:49-53 | a set of candidate indices names as many cells as it has indices |
| ProblemASearch.Search.CellOfIndex | PROBLEM_A/problemA.cpp:52 | a cell is named by a set of indices exactly when it is `.` and its candIndex is in the set |
| ProblemASearch.Search.AdjCount | PROBLEM_A/problemA.cpp:117-123 | the chosen entries of an adjacency list count the chosen cells next to the outpost, direction by direction |
| ProblemASearch.Search.NeighboursReordered | PROBLEM_A/problemA.cpp:115-116 | counting neighbours in dr2/dc2 order gives the same number as in the grid's own direction order |
| ProblemASearch.Search.ToCells | PROBLEM_A/problemA.cpp:147-150 | a set of candidate indices the search accepts names an accepted placement of cells of the same size |
| ProblemASearch.Search.ToIndices | PROBLEM_A/problemA.cpp:147-150 | an accepted placement of cells has a set of candidate indices of the same size that the search accepts |
| ProblemASearch.Solve | PROBLEM_A/problemA.cpp:36-226 | the corrected test case: min(R, C) for a grid with no obstacle, and otherwise deepening from k = 0; a result of 0 or more is the least size of an accepted placement, and -1 means none exists |
| ProblemASearch.SolveAsWritten | PROBLEM_A/problemA.cpp:56-225 | the test case as written: max(R, C) for a grid with no obstacle; otherwise -1 or the least size of 1 or more, which bounds every non-empty accepted placement; -1 when every accepted placement is empty |

## Left out

- Reading the input, the loop over test cases and the printed text: each `Run` (and `ProblemASearch.Solve`) returns an `int`, and -1 stands for "noxus will rise!".
- `isSpecificPattern` and its hard-coded answer 23 in `Claude.cpp`: a special case for one input, not part of the algorithm.
- The `#ifdef LOCAL` input redirection of `problemA.cpp`: file input.
- The fixed sizes `MAXN`, `MAX_N`, `MAX_CAND` and the width of `bitset<256>`: grids are any size, and bitsets are sets of indices. The model assumes, as the programs do, that the grid is rectangular and holds only `#`, `.` and `0`..`4`.
- `int` and `INT_MAX`: integers are unbounded. The values involved (at most R*C turrets, INF = 10^9) stay far below the 32-bit limit.
- The `covered` matrix that `primo.cpp` and `tp1.cpp` allocate in `main` and only pass as the first, all-false coverage: the model starts from an all-false matrix. `getVisibility` of `Claude.cpp` is modelled on its own; as in the source, no search calls it.
- Direction order: `primo.cpp` and `tp1.cpp` walk Left, Up, Right, Down, and `problemA.cpp` walks right, left, down, up. The model walks the four rays in one fixed order; the marked cells, the coverage sets and the counts do not depend on it. The order of `adj` does follow `problemA.cpp` (`ProblemA.ADir`).
- ProblemA.OrderCandidates: `std::sort`'s order among candidates with equal coverage is unspecified. The model fixes one (a stable insertion) and proves only what the program relies on: a permutation ordered by non-increasing coverage.
- `std::function` and `goto skip_candidate` become ordinary recursion and early returns. Some loop bodies and branches are separate methods so that each proof stays small:
  - `Claude.Solver.SkipThenPlace` and `Claude.Solver.PlaceThenSkip`;
  - `Primo.Solver.PlaceHere` and `Tp1.Solver.PlaceHere`;
  - `ProblemASearch.Search.Leaf`, `ProblemASearch.Search.Branch` and `ProblemASearch.Search.TryCandidate`;
  - `ProblemA.IndexRow` and `ProblemA.CoverRay`.
- Claude.Solver.OutpostsSatisfied: stated for a turret list without repeats, which is every list `backtrack` builds; for a list with a repeated cell the C++ counts that cell twice, and the model says nothing about it.
- Claude.Solver.Solve: the -1 case says that every accepted placement has at least INF turrets, as the program's sentinel does. The model does not bound the grid, so it does not conclude that no placement exists; the same holds for `Primo.Run` and `Tp1.Run`.

## Findings

| source | as written | input that shows it | evidently intended | confidence | as-written member | corrected member |
|---|---|---|---|---|---|---|
| PROBLEM_A/problemA.cpp:68-69 | a grid with no obstacle answers max(R, C) | the 1x3 grid `...`: the answer printed is 3, but one turret sees the whole row | the least number of turrets, which on an open grid is min(R, C) | high, not executed | ProblemASearch.SolveAsWritten, ProblemA.MaxShortcutCounterexample | ProblemA.ObstacleFreeMinimum, ProblemASearch.Solve |
| PROBLEM_A/problemA.cpp:211 | iterative deepening starts at k = 1, so the empty placement is never tried | the 1x1 grid `#`: E = 0, the loop never runs, and "noxus will rise!" is printed, though no turret is needed (`Claude.cpp` answers 0) | start at k = 0, so a grid that needs no turret answers 0 | high, not executed | ProblemASearch.SolveAsWritten, ProblemA.EmptyPlacementCounterexample | ProblemASearch.Solve |
