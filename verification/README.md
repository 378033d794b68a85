# pyslab Sudoku engine in Dafny

This project models the Sudoku engine of pyslab and proves properties of the model. The engine covers:

- the 9x9 geometry of cells, rows, columns, boxes and peers;
- digit queries on a partially filled grid;
- validation, and a depth-first search for the completions of a grid;
- four deduction strategies: naked and hidden singles, naked and hidden pairs;
- the fixed-point solver. It applies naked and hidden singles house by house and updates the grid and the candidate sets in place.

A grid is a 9x9 `seq<seq<int>>` with entries 0..9, where 0 means unset (`Board.Grid`, `Board.IsGrid`). A candidate grid is a 9x9 `seq<seq<set<int>>>`. The solver works on `array2<int>` and `array2<set<int>>` and states its effect through the functions `Solver.GridOf` and `Solver.CandsOf`.

The repository holds three revisions of the same logic. Each has its own modules:

- `pyslab/core/*` with the cell-list strategies:
  - `CoreTypes`, `Cells`, `Locations`, `Peers`, `Digits`, `Validation`;
  - `NakedSingle`, `HiddenSingle`, `NakedPair`, `HiddenPair`.
- The house-index revision used by the solver: `LegacyGrid` (`pyslab/grid.py`), `NakedSingles`, `HiddenSingles` and `Solver`.
- The "puzzle / element / nonet" copy: `PuzzleGrid` (`pyslab/puzzle_grid.py`) and `ElementSingles` (`pyslab/naked_singles/naked_singles.py`).

All three share one geometry, one search and one notion of sound deduction:

- `Deduction.Keeps(g, cs, s)`: the completion `s` of `g` takes, in every unset cell, one of that cell's candidates.
- `Deduction.Bounded`: a set cell lists at most its own digit.
- `Deduction.Pruned`: an unset cell lists no digit that a peer holds.

Every strategy is proved sound against these: a placement it reports holds in every completion the candidates keep, and an elimination it reports removes no digit that any such completion uses.

Choices made where the Python is loose:

- Python `set` iteration is modelled as ascending order. This covers the search's candidate values and the digits of a cell.
- A `Counter`'s key order is modelled as the order of first occurrence.
- In the naked-pair strategy, a cell's candidate set is compared with the pair as a set. The source compares a Python set with a sorted list, which is never equal. The repository's tests expect the two pair cells to be left alone, and the model follows that intended meaning.
- `column_houses` / `column_house_ids` are 10..17 and `box_houses` / `box_house_ids` are 19..26, exactly as written. So `solve` never scans column 0 (house 9) or box 0 (house 18), and `Solver.Solve` promises stuckness only for the other 25 houses.
- Generators (`yield from`) become functions that return the whole sequence of completions. `brute_force_solution` takes its first element. `has_unique_solution` asks whether there is exactly one, which is what pulling at most two decides.

## Model

| member | source | states |
|---|---|---|
| CoreTypes.BeforeIsStrictTotalOrder | pyslab/core/types.py:4-6 | cells compare as (row, column) tuples: the order is irreflexive, transitive and total on distinct cells |
| Cells.RowCells | pyslab/core/cells.py:6-7 | nine cells, exactly those of the given row with a column in 0..8, in column order |
| Cells.ColumnCells | pyslab/core/cells.py:10-11 | nine cells, exactly those of the given column with a row in 0..8, in row order |
| Cells.BoxCells | pyslab/core/cells.py:14-20 | nine cells, exactly the 3x3 block at corner (box div 3 * 3, box mod 3 * 3), row-major |
| Cells.BoxCellsHaveBoxId | pyslab/core/cells.py:14-20 | a cell lies in `box_cells(b)` exactly when it is on the board and its box id is b |
| Cells.RowColumnMeet | pyslab/core/cells.py:6-11 | row r and column c share exactly the one cell (r, c) |
| Locations.BoxId | pyslab/core/locations.py:6-7 | the box id of an on-board cell lies in 0..8 |
| Locations.SameBoxIff | pyslab/core/locations.py:6-7 | two cells share a box id exactly when they share band and stack |
| Locations.RowHouseIds | pyslab/core/locations.py:10-11 | exactly the ids 0..8, ascending |
| Locations.ColumnHouseIds | pyslab/core/locations.py:14-15 | exactly the eight ids 10..17, ascending; 9 is not among them |
| Locations.BoxHouseIds | pyslab/core/locations.py:18-19 | exactly the eight ids 19..26, ascending; 18 is not among them |
| Locations.HouseIdLists | pyslab/core/locations.py:10-19 | the three lists are pairwise disjoint and together are 0..26 less 9 and 18 |
| Peers.RowPeerCells | pyslab/core/peers.py:7-8 | the eight other cells of the row, in column order |
| Peers.ColumnPeerCells | pyslab/core/peers.py:11-14 | the eight other cells of the column, in row order |
| Peers.BoxPeerCells | pyslab/core/peers.py:17-18 | the eight other cells of the box, row-major |
| Peers.AllPeerCells | pyslab/core/peers.py:21-26 | no repeats, never the cell itself, and a cell is listed exactly when it shares a row, column or box with it |
| Peers.AllPeerCellsOrder | pyslab/core/peers.py:21-26 | order of first occurrence: the row peers, then the column peers, then the box peers not yet listed |
| Peers.AllPeerCellsCount | pyslab/core/peers.py:21-26 | exactly twenty peers |
| Peers.PeerSymmetric | pyslab/core/peers.py:21-26 | d is a peer of c exactly when c is a peer of d |
| Digits.RowDigits | pyslab/core/digits.py:9-19 | the non-zero values of the row, all within 1..9 |
| Digits.ColumnDigits | pyslab/core/digits.py:22-32 | the non-zero values of the column, all within 1..9 |
| Digits.BoxDigits | pyslab/core/digits.py:35-45 | the non-zero values of the cells with that box id, all within 1..9 |
| Digits.PeerDigits | pyslab/core/digits.py:48-57 | the non-zero values the peers hold, less the cell's own value, which is never in the set |
| Digits.PeerDigitsUnion | pyslab/core/digits.py:48-57 | equals the union of the row, column and box digits less the cell's own value |
| Digits.EmptyGridHasNoDigits | pyslab/core/digits.py:9-57 | on an all-zero grid every row, column, box and peer digit set is empty |
| Validation.SolvedIff | pyslab/core/validation.py:9-37 | every row, column and box holds exactly 1..9 iff every cell is set and no two peers agree |
| Validation.SolvedPeerDigits | pyslab/core/digits.py:48-57 | on a solved grid the peer digits of a cell are 1..9 less its own value |
| Validation.UnsolvedCells | pyslab/core/validation.py:99-108 | the cells holding 0, row-major, as many as the grid has zeros |
| Validation.SolvedCells | pyslab/core/validation.py:111-120 | the cells holding a positive value, row-major, as many as the grid has non-zeros |
| Validation.CellsPartition | pyslab/core/validation.py:99-120 | the two lists split the 81 cells between them |
| Validation.BruteForceSolutions | pyslab/core/validation.py:40-59 | every grid yielded is solved and agrees with the input on every set cell; none is yielded twice |
| Validation.SearchOrdered | pyslab/core/validation.py:40-59 | the grids come in strictly increasing row-major lexicographic order: the first unset cell is tried with ascending values, and each branch's completions precede the next branch's |
| Validation.LexLessAsymmetric | pyslab/core/validation.py:40-59 | the order the search follows is irreflexive and asymmetric |
| Validation.LexLessTotal | pyslab/core/validation.py:40-59 | any two different grids are ordered one way or the other |
| Validation.SearchValues | pyslab/core/validation.py:51-53 | the values tried: 1..9 less the peer digits of the first unset cell, ascending |
| Validation.SearchComplete | pyslab/core/validation.py:49-59 | every solved completion of the input is yielded |
| Validation.SearchExact | pyslab/core/validation.py:40-59 | the grids yielded are exactly the completions of the input, without repeats |
| Validation.BruteForceSolution | pyslab/core/validation.py:62-74 | the first yielded grid, a completion; `None` exactly when no completion exists |
| Validation.LeastCompletion | pyslab/core/validation.py:62-74 | the grid returned is the lexicographically least completion: every other completion is greater |
| Validation.FirstSolution | pyslab/core/validation.py:62-74 | the search is empty exactly when there is no completion, and otherwise starts with one |
| Validation.HasUniqueSolution | pyslab/core/validation.py:77-96 | true exactly when some completion is the only completion |
| Validation.UniqueIff | pyslab/core/validation.py:77-96 | the search yields exactly one grid iff exactly one completion exists |
| Validation.SolvedHasUniqueSolution | pyslab/core/validation.py:62-96 | a solved grid is its own and only solution |
| Validation.OnesWithBlankUnsolvable | pyslab/core/validation.py:62-96 | an all-ones grid with one blank has no solution, and so no unique one |
| Deduction.UniqueHolderForced | pyslab/strategies/hidden_single.py:14-24 | a digit listed by a single unset cell of a house goes to that cell in every completion the candidates keep |
| Deduction.NonEmpty | pyslab/strategies/naked_pair.py:24-40 | one elimination per non-empty list, no other; when no non-empty list repeats, they keep the lists' order and none is listed twice |
| NakedSingle.FindPlacements | pyslab/strategies/naked_single.py:7-18 | a placement exactly for each listed unset cell with one candidate, placing that candidate; at most one per cell, in cell-list order |
| NakedSingle.FindPlacementsSound | pyslab/strategies/naked_single.py:7-18 | each placement holds in every completion the candidates keep |
| HiddenSingle.CandidateCounts | pyslab/strategies/hidden_single.py:14-16 | each digit counts the unset cells of the list whose candidates contain it |
| HiddenSingle.Singles | pyslab/strategies/hidden_single.py:18 | exactly the digits counted once, without repeats |
| HiddenSingle.FindPlacements | pyslab/strategies/hidden_single.py:8-25 | (c, d) is reported exactly when c is listed, has more than one candidate, lists d, and d has one unset holder; over a list without repeats each once, cell by cell in list order, and for one cell in the counter's key order of the singles |
| HiddenSingle.FindPlacementsSound | pyslab/strategies/hidden_single.py:8-25 | on a house, each placement holds in every completion the candidates keep |
| HiddenSingle.NakedSinglesNotReported | pyslab/strategies/hidden_single.py:24 | no cell reported as a hidden single is also a naked single of the same list |
| NakedPair.NakedPairs | pyslab/strategies/naked_pair.py:14-22 | exactly the two-digit sets that are the candidates of exactly two unset cells, without repeats; over a row-major list, in the order of their first holders |
| NakedPair.StreamOrder | pyslab/strategies/naked_pair.py:14-18 | over a row-major list, a set met earlier in the counter's input has an earlier first holder |
| NakedPair.DifferentPairsDifferentEliminations | pyslab/strategies/naked_pair.py:24-37 | two different naked pairs never remove the same non-empty list of candidates |
| NakedPair.EliminationsDistinct | pyslab/strategies/naked_pair.py:24-40 | the eliminations built from the naked pairs are pairwise different |
| NakedPair.EliminationsOrdered | pyslab/strategies/naked_pair.py:20-40 | over a row-major list, an earlier elimination belongs to the naked pair with the earlier first holder |
| NakedPair.FindEliminations | pyslab/strategies/naked_pair.py:9-40 | one non-empty elimination per naked pair that removes something: the pair's digits from the unset cells whose candidates are not the pair; none twice, and over a row-major list in the order of the pairs' first holders |
| NakedPair.PairEliminationsOrder | pyslab/strategies/naked_pair.py:28-34 | candidates are listed cell by cell in house order, digits ascending within a cell |
| NakedPair.FindEliminationsSound | pyslab/strategies/naked_pair.py:9-40 | on a house, no eliminated candidate is used by a completion the candidates keep |
| HiddenPair.Combinations2 | pyslab/strategies/hidden_pair.py:24 | from an ascending digit list: every pair of two listed digits in ascending order, each once, in lexicographic order |
| HiddenPair.CellPairs | pyslab/strategies/hidden_pair.py:22-25 | for an unset cell, exactly its candidate pairs (a, b), a < b, whose two digits each have count 2, once each in lexicographic order; nothing for a set cell |
| HiddenPair.HiddenPairs | pyslab/strategies/hidden_pair.py:16-28 | exactly the pairs of count-2 digits listed together by exactly two unset cells, without repeats; over a row-major list, by first holder of both, then in tuple order |
| HiddenPair.StreamOrder | pyslab/strategies/hidden_pair.py:20-26 | over a row-major list, a pair met earlier in the counter's input has an earlier first holder, or the same one and is the smaller pair |
| HiddenPair.DifferentPairsDifferentEliminations | pyslab/strategies/hidden_pair.py:30-43 | two different hidden pairs never remove the same non-empty list of candidates |
| HiddenPair.EliminationsDistinct | pyslab/strategies/hidden_pair.py:30-46 | the eliminations built from the hidden pairs are pairwise different |
| HiddenPair.EliminationsOrdered | pyslab/strategies/hidden_pair.py:28-46 | over a row-major list, an earlier elimination belongs to the hidden pair earlier in holder order |
| HiddenPair.FindEliminations | pyslab/strategies/hidden_pair.py:10-46 | one non-empty elimination per hidden pair that removes something: the other digits of the unset cells that list both pair digits; none twice, and over a row-major list in the holder order of the pairs |
| HiddenPair.PairEliminationsOrder | pyslab/strategies/hidden_pair.py:30-43 | candidates are listed cell by cell in house order, digits ascending within a cell |
| HiddenPair.FindEliminationsSound | pyslab/strategies/hidden_pair.py:10-46 | on a house, no eliminated candidate is used by a completion the candidates keep |
| LegacyGrid.HouseCells | pyslab/grid.py:59-64 | house div 9 selects row, column or box; on 0..26 the cells are exactly that row, column h-9 or box h-18 |
| LegacyGrid.BoxDigits | pyslab/grid.py:93-105 | the non-zero values of the block holding (row, col) |
| LegacyGrid.PeerDigits | pyslab/grid.py:108-124 | row, column and box digits less the own value: the same set as the peer digits of the cell |
| LegacyGrid.PeerCells | pyslab/grid.py:127-151 | twenty cells, never (row, col) itself, exactly those sharing its row, column or box |
| LegacyGrid.IsSolved | pyslab/grid.py:154-182 | every cell set and no two peers agree |
| LegacyGrid.BruteForceSolutions | pyslab/grid.py:185-204 | exactly the completions of the grid, each once, in increasing lexicographic order |
| LegacyGrid.BruteForceSolution | pyslab/grid.py:207-219 | the first grid the search yields, which is the least completion; `None` exactly when there is none |
| LegacyGrid.HasUniqueSolution | pyslab/grid.py:222-241 | true exactly when the grid has one and only one completion |
| LegacyGrid.StartCandidates | pyslab/grid.py:257-267 | a set cell lists its own digit; an unset cell lists the digits 1..9 that no peer holds |
| LegacyGrid.CreateCandidateGrid | pyslab/grid.py:244-267 | a 9x9 grid of candidate sets, each cell's as the per-cell rule says |
| LegacyGrid.CandidateGridInvariants | pyslab/grid.py:244-267 | the candidate grid is bounded and pruned, and keeps every completion |
| PuzzleGrid.NonetNumbers | pyslab/puzzle_grid.py:73-85 | the non-zero values of the nonet holding (row, col) |
| PuzzleGrid.PeerNumbers | pyslab/puzzle_grid.py:88-104 | the non-zero values the peers hold, other than the element's own |
| PuzzleGrid.PeerElements | pyslab/puzzle_grid.py:107-131 | twenty elements, never (row, col), exactly those sharing its row, column or nonet |
| PuzzleGrid.IsSolved | pyslab/puzzle_grid.py:134-162 | every element set and no two peers agree |
| PuzzleGrid.BruteForceSolutions | pyslab/puzzle_grid.py:165-184 | exactly the completions of the puzzle, each once, in increasing lexicographic order |
| PuzzleGrid.BruteForceSolution | pyslab/puzzle_grid.py:187-199 | the first grid the search yields, which is the least completion; `None` exactly when there is none |
| PuzzleGrid.HasUniqueSolution | pyslab/puzzle_grid.py:202-221 | true exactly when the puzzle has one and only one completion |
| PuzzleGrid.CreateCandidateGrid | pyslab/puzzle_grid.py:224-248 | a singleton for a set element; for a blank, the numbers 1..9 no peer holds |
| NakedSingles.FindPlacements | pyslab/strategies/naked_singles.py:6-17 | exactly the unset cells of house h with one candidate, placing that candidate, in house order |
| NakedSingles.FindPlacementsSound | pyslab/strategies/naked_singles.py:6-17 | each placement holds in every completion the candidates keep |
| HiddenSingles.CountCandidatesInHouse | pyslab/strategies/hidden_singles.py:7-15 | each digit counts the unset cells of the house listing it |
| HiddenSingles.FindPlacements | pyslab/strategies/hidden_singles.py:18-34 | (c, d) is reported exactly when c is in the house, lists d among more than one candidate, and d is counted once; each once |
| HiddenSingles.FindPlacementsOrdered | pyslab/strategies/hidden_singles.py:18-34 | the placements come cell by cell in row-major order and, for one cell, in the counter's key order of the singles |
| HiddenSingles.FindPlacementsSound | pyslab/strategies/hidden_singles.py:18-34 | each placement holds in every completion the candidates keep |
| ElementSingles.CountCandidatesInElements | pyslab/naked_singles/naked_singles.py:8-16 | each digit counts the unset elements of the house listing it |
| ElementSingles.FindInElements | pyslab/naked_singles/naked_singles.py:19-43 | an element is reported with d exactly when it lists d and d has one unset holder in one of the nine houses holding it; no size filter; with disjoint houses without repeats, each once, house by house in house order and within a cell in the singles' order |
| ElementSingles.KeyedOrder | pyslab/naked_singles/naked_singles.py:19-43 | for houses keyed by a cell function, the output runs by key, then row-major within a house, then by the singles' order |
| ElementSingles.HiddenSinglesIncluded | pyslab/naked_singles/naked_singles.py:19-43 | every hidden single of any of the nine houses is among the results |
| ElementSingles.FindInElementsSound | pyslab/naked_singles/naked_singles.py:19-43 | each result holds in every completion the candidates keep |
| ElementSingles.FindInRows | pyslab/naked_singles/naked_singles.py:46-59 | a cell is reported with d exactly when it lists d and d has one unset holder in its row; each once, row-major, and for one cell in its row's singles order |
| ElementSingles.FindInColumns | pyslab/naked_singles/naked_singles.py:62-76 | a cell is reported with d exactly when it lists d and d has one unset holder in its column; each once, column by column top to bottom, and for one cell in its column's singles order |
| ElementSingles.FindInNonets | pyslab/naked_singles/naked_singles.py:79-93 | a cell is reported with d exactly when it lists d and d has one unset holder in its nonet; each once, nonet by nonet, row-major within a nonet, and for one cell in its nonet's singles order |
| Solver.Propagate | pyslab/solver.py:63-68 | the cell lists only the digit, every peer loses the digit and nothing else, every other cell is unchanged |
| Solver.SetCell | pyslab/solver.py:59-68 | the grid changes only at the cell, to the digit; the candidates become the propagated ones |
| Solver.PrunePeers | pyslab/solver.py:66-68 | each peer loses the digit, in any visiting order, and no other cell's candidates change |
| Solver.SoundStart | pyslab/solver.py:16 | the starting candidates are sound for the input grid |
| Solver.PlaceSound | pyslab/solver.py:59-68 | placing a digit forced in every completion keeps the state sound |
| Solver.NakedForced | pyslab/solver.py:24-27 | on a sound state, a naked single of a house is forced in every completion and lands on an unset cell |
| Solver.HiddenForced | pyslab/solver.py:29-32 | on a sound state, a hidden single of a house is forced in every completion and lands on an unset cell |
| Solver.ApplyPlacements | pyslab/solver.py:24-27 | the placements are applied in order; the state stays sound and the unset cells never grow in number |
| Solver.ApplyAll | pyslab/solver.py:24-27 | applying a list of placements keeps the state a grid with bounded candidates; the unset cells never grow in number, and they shrink when the first placement lands on an unset cell |
| Solver.HouseStep | pyslab/solver.py:24-32 | one house: naked singles placed in order, then the hidden singles found on the updated state; a house with no single leaves the state unchanged, any other house fills at least one unset cell |
| Solver.ApplyHouse | pyslab/solver.py:24-32 | the new grid and candidates are exactly `HouseStep` of the old ones; progress is reported exactly when the house had a naked or hidden single; the state stays sound |
| Solver.Scan | pyslab/solver.py:23-54 | the houses of a list are visited in order, each by `HouseStep`; the state stays a grid with bounded candidates and the unset cells never grow in number |
| Solver.PassHouses | pyslab/solver.py:23-54 | the ids a pass visits are house ids, and they are exactly 0..26 other than 9 and 18 |
| Solver.Pass | pyslab/solver.py:20-54 | one pass of the `while` loop is the scan of the pass's houses; the number of unset cells does not grow |
| Solver.ScanHouses | pyslab/solver.py:23-54 | the new grid and candidates are exactly `Scan` of the old ones over the list; progress is reported exactly when the scan filled a cell; the state stays sound |
| Solver.ScanUnchangedHead | pyslab/solver.py:23-32 | a scan that fills no cell found its first house stuck, and the rest of the scan computes the same state |
| Solver.ScanStuck | pyslab/solver.py:23-54 | a scan that fills no cell found every house it visited without a naked or hidden single |
| Solver.ScanIdle | pyslab/solver.py:23-54 | a scan over houses that all lack singles leaves the state unchanged |
| Solver.StuckPass | pyslab/solver.py:20-54 | a pass that fills no cell leaves the state unchanged, and no house but 9 and 18 has a single |
| Solver.SolveFrom | pyslab/solver.py:18-54 | passes repeat until one fills no cell; a further pass from the result fills no cell, and the result has no more unset cells than the start |
| Solver.SolveFromStops | pyslab/solver.py:18-54 | the solver's final state is unchanged by a further pass and no house but 9 and 18 has a single left |
| Solver.ApplyAllSound | pyslab/solver.py:24-27 | applying placements that are forced in every completion keeps the state sound |
| Solver.HouseStepSound | pyslab/solver.py:24-32 | one house step keeps the state sound |
| Solver.ScanSound | pyslab/solver.py:23-54 | a scan keeps the state sound |
| Solver.PassSound | pyslab/solver.py:20-54 | a pass keeps the state sound |
| Solver.SolveFromSound | pyslab/solver.py:14-56 | the solver's final state is sound and has exactly the completions of the input |
| Solver.Solve | pyslab/solver.py:14-56 | the same grid, updated in place, is returned holding exactly `SolveFrom` of the input and its candidate grid; it keeps exactly the input's completions, and no house but 9 and 18 has a single left |
| Solver.FilledResultIsSolution | pyslab/solver.py:14-56 | a fully filled result of a solvable grid is its unique solution |

## Left out

- `pyslab/generator.py` is not part of this model: it draws on Python's random number generator.
- `pyslab/candidate_grid.py` has no live code.
- The `print` calls of `solve` are console output only.
- numpy details are not modelled: float grids and fancy indexing. A grid holds integers 0..9.
- Aliasing of candidate sets is not modelled. Each array entry is a set value.
- Lazy generators are not modelled: `brute_force_solutions` returns the whole sequence, so suspension and the early stop after two solutions are not represented. The results `brute_force_solution` and `has_unique_solution` return are the same.
- Python `set` iteration and `Counter` order are modelled as ascending order and as first-occurrence order. CPython hashing is not modelled.
- `Solver.PrunePeers`: it visits the peers in an unspecified set order. The result does not depend on that order, which is all its contract states.
- The fixture boards of the repository's tests are not replayed as concrete examples. The general properties they illustrate are proved instead.
- The row, column and box cell lists and the house-id lists of `pyslab/grid.py` and `pyslab/puzzle_grid.py` are not separate members. They are the lists of `Cells` and `Locations`, which `LegacyGrid.HouseCells` and `PuzzleGrid` use directly. The same holds for:
  - `row_digits` / `column_digits` and `row_numbers` / `column_numbers`, which are `Digits.RowDigits` and `Digits.ColumnDigits`;
  - `unsolved_cells` / `solved_cells` and `unsolved_elements` / `solved_elements`, which are `Validation.UnsolvedCells` and `Validation.SolvedCells`.
- A house index outside 0..26 is not given to the house-index strategies. `LegacyGrid.HouseCells` models the source's fall-through to the box branch for such an index.
- Solver.Solve: termination is proved from the count of unset cells. The result is stated for houses 0..26 other than 9 and 18, because the source never scans those two.
- Solver.Pass: the three `for` loops of a pass (rows, columns, boxes) are one scan over the joined house-id list `PassHouses`. The three loop bodies differ only in the printed label, so the states they compute are the same.
- Solver.ScanHouses: the `progress` flag is set in the source whenever a finder returns a placement. The model states it as "the scan filled a cell"; `HouseStep` proves the two equivalent, since every reported single lands on an unset cell.
