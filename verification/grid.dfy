/**
  The legacy grid module: geometry by house index, digit queries by
  (row, column), peer cells as a set, the search entry points and the
  candidate grid the solver starts from. Houses 0..8 are rows, 9..17
  columns and 18..26 boxes; the row, column and box cell lists and the
  house-id lists are the ones `Cells` and `Locations` define.
*/
module LegacyGrid {
  import opened SeqUtil
  import opened CoreTypes
  import opened Board
  import opened Locations
  import opened Cells
  import opened Peers
  import opened Digits
  import Validation
  import opened Deduction

  /**
    The cells of house `house`: `house div 9` selects row, column or box.
    Division by 9 rounds down in both languages, so every index outside
    0..17 (negative ones included) falls through to the box branch.
  */
  function HouseCells(house: int): (cells: seq<Cell>)
    ensures |cells| == 9 && RowMajor(cells)
    ensures 0 <= house < 27 ==> IsHouse(cells) && AllInRange(cells)
    ensures 0 <= house < 9 ==> forall c :: c in cells <==> InRange(c) && c.row == house
    ensures 9 <= house < 18 ==> forall c :: c in cells <==> InRange(c) && c.column == house - 9
    ensures 18 <= house < 27 ==> forall c :: c in cells <==> InRange(c) && BoxId(c) == house - 18
  {
    if house / 9 == 0 then
      assert 0 <= house < 9;
      HouseCellsInRange(house);
      RowCells(house)
    else if house / 9 == 1 then
      assert 9 <= house < 18;
      HouseCellsInRange(house - 9);
      ColumnCells(house - 9)
    else
      assert 18 <= house < 27 ==>
        AllInRange(BoxCells(house - 18)) && forall c :: c in BoxCells(house - 18) <==> InRange(c) && BoxId(c) == house - 18
      by {
        if 18 <= house < 27 {
          HouseCellsInRange(house - 18);
          BoxCellsHaveBoxId(house - 18);
        }
      }
      BoxCells(house - 18)
  }

  /** The digits of the box holding (row, col): the block with corner (row div 3 * 3, col div 3 * 3). */
  function BoxDigits(g: Grid, row: int, col: int): (ds: set<int>)
    requires IsGrid(g) && 0 <= row < 9 && 0 <= col < 9
    ensures ds <= OneToNine
    ensures forall v :: v in ds <==>
      v != 0 && exists d :: InRange(d) && d.row / 3 == row / 3 && d.column / 3 == col / 3 && At(g, d) == v
  {
    var c := Cell(row, col);
    forall d | InRange(d) ensures BoxId(d) == BoxId(c) <==> d.row / 3 == row / 3 && d.column / 3 == col / 3 {
      SameBoxIff(d, c);
    }
    Digits.BoxDigits(g, BoxId(c))
  }

  /**
    The digits of the row, the column and the box of (row, col), less the
    cell's own value: the same set as the peer digits of the cell.
  */
  function PeerDigits(g: Grid, row: int, col: int): (ds: set<int>)
    requires IsGrid(g) && 0 <= row < 9 && 0 <= col < 9
    ensures ds == Digits.PeerDigits(g, Cell(row, col))
  {
    PeerDigitsUnion(g, Cell(row, col));
    (RowDigits(g, row) + ColumnDigits(g, col) + BoxDigits(g, row, col)) - {g[row][col]}
  }

  /** The other cells of the row of (row, col). */
  function PeerRowCells(row: int, col: int): set<Cell> {
    set k | 0 <= k < 9 && k != col :: Cell(row, k)
  }

  /** The other cells of the column of (row, col). */
  function PeerColumnCells(row: int, col: int): set<Cell> {
    set k | 0 <= k < 9 && k != row :: Cell(k, col)
  }

  /** The other cells of the block with corner (row div 3 * 3, col div 3 * 3). */
  function PeerBoxCells(row: int, col: int): set<Cell> {
    var cr, cc := row / 3 * 3, col / 3 * 3;
    set r, k | cr <= r < cr + 3 && cc <= k < cc + 3 && !(r == row && k == col) :: Cell(r, k)
  }

  /**
    The peers of (row, col) as a set: exactly the cells sharing its row,
    column or box, twenty of them, never the cell itself.
  */
  function PeerCells(row: int, col: int): (cells: set<Cell>)
    ensures Cell(row, col) !in cells
    ensures InRange(Cell(row, col)) ==> forall d :: d in cells <==> IsPeer(Cell(row, col), d)
    ensures InRange(Cell(row, col)) ==> |cells| == 20
  {
    var cells := PeerRowCells(row, col) + PeerColumnCells(row, col) + PeerBoxCells(row, col);
    var c := Cell(row, col);
    assert InRange(c) ==> (forall d :: d in cells <==> IsPeer(c, d)) && |cells| == 20 by {
      if InRange(c) {
        PeerCellsMembers(row, col);
        var all := AllPeerCells(c);
        assert cells == Elems(all);
        CardElemsNoDups(all);
        AllPeerCellsCount(c);
      }
    }
    cells
  }

  lemma PeerCellsMembers(row: int, col: int)
    requires 0 <= row < 9 && 0 <= col < 9
    ensures forall d :: d in PeerRowCells(row, col) + PeerColumnCells(row, col) + PeerBoxCells(row, col) <==>
      IsPeer(Cell(row, col), d)
  {
    var c := Cell(row, col);
    forall d
      ensures d in PeerRowCells(row, col) + PeerColumnCells(row, col) + PeerBoxCells(row, col) <==> IsPeer(c, d)
    {
      assert d in PeerRowCells(row, col) <==> d.row == row && 0 <= d.column < 9 && d.column != col;
      assert d in PeerColumnCells(row, col) <==> d.column == col && 0 <= d.row < 9 && d.row != row;
      assert d in PeerBoxCells(row, col) <==> InRange(d) && BoxId(d) == BoxId(c) && d != c by {
        if InRange(d) {
          SameBoxIff(d, c);
        }
      }
    }
  }

  /** Every row, column and 3x3 box holds exactly the digits 1..9: the grid is filled and no two peers agree. */
  function IsSolved(g: Grid): (b: bool)
    requires IsGrid(g)
    ensures b <==> Validation.Filled(g) && Validation.NoConflicts(g)
  {
    Validation.SolvedIff(g);
    Validation.IsSolved(g)
  }

  /**
    The grids the depth-first search yields: first unset cell, values not
    among the legacy peer digits in ascending order, each on a copy. It
    yields every solved completion of `g`, each once, and nothing else.
  */
  function BruteForceSolutions(g: Grid): (r: seq<Grid>)
    requires IsGrid(g)
    ensures forall s :: s in r <==> Validation.Completes(s, g)
    ensures NoDups(r)
    ensures Validation.LexSorted(r)
  {
    Validation.SearchExact(g);
    Validation.SearchOrdered(g);
    Validation.BruteForceSolutions(g)
  }

  /**
    The first grid of the search, or `None` exactly when `g` has no
    completion; it is the lexicographically least completion.
  */
  function BruteForceSolution(g: Grid): (r: Option<Grid>)
    requires IsGrid(g)
    ensures r.Some? ==> Validation.Completes(r.value, g)
    ensures r.None? <==> forall s :: !Validation.Completes(s, g)
    ensures r.Some? ==> BruteForceSolutions(g) != [] && r.value == BruteForceSolutions(g)[0]
    ensures r.Some? ==> forall s :: Validation.Completes(s, g) && s != r.value ==> Validation.LexLess(r.value, s)
  {
    Validation.LeastCompletion(g);
    Validation.BruteForceSolution(g)
  }

  /** Whether exactly one completion exists; the search is pulled for at most two grids. */
  function HasUniqueSolution(g: Grid): (b: bool)
    requires IsGrid(g)
    ensures b <==> exists s :: Validation.OnlyCompletion(s, g)
  {
    Validation.HasUniqueSolution(g)
  }

  /** The candidates of one cell: its own digit when set, else the digits 1..9 none of its peers holds. */
  function StartCandidates(g: Grid, row: int, col: int): (ds: set<int>)
    requires IsGrid(g) && 0 <= row < 9 && 0 <= col < 9
    ensures g[row][col] != 0 ==> ds == {g[row][col]}
    ensures g[row][col] == 0 ==> forall v :: v in ds <==>
      1 <= v <= 9 && forall d :: IsPeer(Cell(row, col), d) ==> At(g, d) != v
  {
    if g[row][col] == 0 then
      FreeDigits(g, Cell(row, col));
      OneToNine - PeerDigits(g, row, col)
    else
      {g[row][col]}
  }

  /** The digits 1..9 outside the peer digits of an unset cell are those no peer holds. */
  lemma FreeDigits(g: Grid, c: Cell)
    requires IsGrid(g) && InRange(c) && At(g, c) == 0
    ensures forall v :: v in OneToNine - Digits.PeerDigits(g, c) <==>
      1 <= v <= 9 && forall d :: IsPeer(c, d) ==> At(g, d) != v
  {
    forall v ensures v in OneToNine - Digits.PeerDigits(g, c) <==> 1 <= v <= 9 && forall d :: IsPeer(c, d) ==> At(g, d) != v {
      assert v in Digits.PeerDigits(g, c) <==> v != 0 && v != At(g, c) && exists d :: IsPeer(c, d) && At(g, d) == v;
    }
  }

  /**
    The candidate grid of `g`: a set cell lists its own digit; an unset
    cell lists the digits 1..9 that none of its peers holds.
  */
  function CreateCandidateGrid(g: Grid): (cs: CandidateGrid)
    requires IsGrid(g)
    ensures IsCandidateGrid(cs)
    ensures forall c :: InRange(c) && At(g, c) != 0 ==> CandsAt(cs, c) == {At(g, c)}
    ensures forall c, v :: InRange(c) && At(g, c) == 0 ==>
      (v in CandsAt(cs, c) <==> 1 <= v <= 9 && forall d :: IsPeer(c, d) ==> At(g, d) != v)
  {
    var cs := seq(9, r requires 0 <= r < 9 => seq(9, k requires 0 <= k < 9 => StartCandidates(g, r, k)));
    assert forall c :: InRange(c) ==> CandsAt(cs, c) == StartCandidates(g, c.row, c.column);
    cs
  }

  /**
    The candidate grid starts the solver off sound: it keeps every
    completion of `g`, lists only digits (a set cell only its own) and lists
    no digit a peer already holds.
  */
  lemma CandidateGridInvariants(g: Grid)
    requires IsGrid(g)
    ensures Bounded(g, CreateCandidateGrid(g))
    ensures Pruned(g, CreateCandidateGrid(g))
    ensures forall s :: Validation.Completes(s, g) ==> Keeps(g, CreateCandidateGrid(g), s)
  {
    var cs := CreateCandidateGrid(g);
    forall s | Validation.Completes(s, g) ensures Keeps(g, cs, s) {
      forall c | InRange(c) && At(g, c) == 0 ensures At(s, c) in CandsAt(cs, c) {
        Validation.CompletionAvoidsPeerDigits(g, s, c);
      }
    }
    forall c, d | IsPeer(c, d) && At(g, c) == 0 && At(g, d) != 0 ensures At(g, d) !in CandsAt(cs, c) {
    }
  }
}
