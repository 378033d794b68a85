/**
  The older copy of the legacy grid module under "puzzle", "element" and
  "nonet" names. Its element lists are the row, column and box cell lists
  of `Cells`; its queries compute what `LegacyGrid` computes, and each is
  stated here in its own terms.
*/
module PuzzleGrid {
  import opened SeqUtil
  import opened CoreTypes
  import opened Board
  import opened Peers
  import Validation
  import LegacyGrid

  /** The numbers of the nonet holding (row, col): the block with corner (row div 3 * 3, col div 3 * 3). */
  function NonetNumbers(puzzle: Grid, row: int, col: int): (ds: set<int>)
    requires IsGrid(puzzle) && 0 <= row < 9 && 0 <= col < 9
    ensures ds <= OneToNine
    ensures forall v :: v in ds <==>
      v != 0 && exists d :: InRange(d) && d.row / 3 == row / 3 && d.column / 3 == col / 3 && At(puzzle, d) == v
  {
    LegacyGrid.BoxDigits(puzzle, row, col)
  }

  /**
    The row, column and nonet numbers of (row, col), less its own value:
    the non-zero values its peers hold, other than its own.
  */
  function PeerNumbers(puzzle: Grid, row: int, col: int): (ds: set<int>)
    requires IsGrid(puzzle) && 0 <= row < 9 && 0 <= col < 9
    ensures ds <= OneToNine
    ensures puzzle[row][col] !in ds
    ensures forall v :: v in ds <==>
      v != 0 && v != puzzle[row][col] && exists d :: IsPeer(Cell(row, col), d) && At(puzzle, d) == v
  {
    LegacyGrid.PeerDigits(puzzle, row, col)
  }

  /** The twenty elements sharing a row, a column or a nonet with (row, col). */
  function PeerElements(row: int, col: int): (cells: set<Cell>)
    ensures Cell(row, col) !in cells
    ensures InRange(Cell(row, col)) ==> forall d :: d in cells <==> IsPeer(Cell(row, col), d)
    ensures InRange(Cell(row, col)) ==> |cells| == 20
  {
    LegacyGrid.PeerCells(row, col)
  }

  /** Every row, column and nonet holds 1..9: every element is set and no two peers hold the same number. */
  function IsSolved(puzzle: Grid): (b: bool)
    requires IsGrid(puzzle)
    ensures b <==> Validation.Filled(puzzle) && Validation.NoConflicts(puzzle)
  {
    LegacyGrid.IsSolved(puzzle)
  }

  /** The depth-first search: every solved completion of `puzzle`, each once, and nothing else. */
  function BruteForceSolutions(puzzle: Grid): (r: seq<Grid>)
    requires IsGrid(puzzle)
    ensures forall s :: s in r <==> Validation.Completes(s, puzzle)
    ensures NoDups(r)
    ensures Validation.LexSorted(r)
  {
    LegacyGrid.BruteForceSolutions(puzzle)
  }

  /**
    The first solution found, or `None` exactly when the puzzle has none;
    it is the lexicographically least solution.
  */
  function BruteForceSolution(puzzle: Grid): (r: Option<Grid>)
    requires IsGrid(puzzle)
    ensures r.Some? ==> Validation.Completes(r.value, puzzle)
    ensures r.None? <==> forall s :: !Validation.Completes(s, puzzle)
    ensures r.Some? ==> BruteForceSolutions(puzzle) != [] && r.value == BruteForceSolutions(puzzle)[0]
    ensures r.Some? ==> forall s :: Validation.Completes(s, puzzle) && s != r.value ==> Validation.LexLess(r.value, s)
  {
    LegacyGrid.BruteForceSolution(puzzle)
  }

  /** True exactly when the puzzle has one completion: false when it has none or several. */
  function HasUniqueSolution(puzzle: Grid): (b: bool)
    requires IsGrid(puzzle)
    ensures b ==> exists s :: Validation.Completes(s, puzzle)
    ensures b <==> exists s :: Validation.OnlyCompletion(s, puzzle)
  {
    LegacyGrid.HasUniqueSolution(puzzle)
  }

  /** A singleton for a set element; for a blank, the numbers 1..9 that no peer holds. */
  function CreateCandidateGrid(puzzle: Grid): (cs: CandidateGrid)
    requires IsGrid(puzzle)
    ensures IsCandidateGrid(cs)
    ensures forall c :: InRange(c) && At(puzzle, c) != 0 ==> CandsAt(cs, c) == {At(puzzle, c)}
    ensures forall c, v :: InRange(c) && At(puzzle, c) == 0 ==>
      (v in CandsAt(cs, c) <==> 1 <= v <= 9 && forall d :: IsPeer(c, d) ==> At(puzzle, d) != v)
  {
    LegacyGrid.CreateCandidateGrid(puzzle)
  }
}
