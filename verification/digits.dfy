/**
  The digits already placed in a row, a column, a box and among the peers
  of a cell. Each is the set of values of those cells with 0 removed.
*/
module Digits {
  import opened SeqUtil
  import opened CoreTypes
  import opened Board
  import opened Locations
  import opened Cells
  import opened Peers

  /** Non-zero values of row `row`. */
  function RowDigits(g: Grid, row: int): (ds: set<int>)
    requires IsGrid(g) && 0 <= row < 9
    ensures ds <= OneToNine
    ensures forall v :: v in ds <==> v != 0 && exists k :: 0 <= k < 9 && At(g, Cell(row, k)) == v
  {
    HouseCellsInRange(row);
    var ds := PlacedDigits(g, RowCells(row));
    forall v | v != 0 && exists k :: 0 <= k < 9 && At(g, Cell(row, k)) == v ensures v in ds {
      var k :| 0 <= k < 9 && At(g, Cell(row, k)) == v;
      assert Cell(row, k) in RowCells(row);
    }
    ds
  }

  /** Non-zero values of column `column`. */
  function ColumnDigits(g: Grid, column: int): (ds: set<int>)
    requires IsGrid(g) && 0 <= column < 9
    ensures ds <= OneToNine
    ensures forall v :: v in ds <==> v != 0 && exists k :: 0 <= k < 9 && At(g, Cell(k, column)) == v
  {
    HouseCellsInRange(column);
    var ds := PlacedDigits(g, ColumnCells(column));
    forall v | v != 0 && exists k :: 0 <= k < 9 && At(g, Cell(k, column)) == v ensures v in ds {
      var k :| 0 <= k < 9 && At(g, Cell(k, column)) == v;
      assert Cell(k, column) in ColumnCells(column);
    }
    ds
  }

  /** Non-zero values of box `box`, addressed by box index. */
  function BoxDigits(g: Grid, box: int): (ds: set<int>)
    requires IsGrid(g) && 0 <= box < 9
    ensures ds <= OneToNine
    ensures forall v :: v in ds <==> v != 0 && exists c :: InRange(c) && BoxId(c) == box && At(g, c) == v
  {
    HouseCellsInRange(box);
    BoxCellsHaveBoxId(box);
    PlacedDigits(g, BoxCells(box))
  }

  /** Non-zero values of the peers of `c`, without `c`'s own value. */
  function PeerDigits(g: Grid, c: Cell): (ds: set<int>)
    requires IsGrid(g) && InRange(c)
    ensures ds <= OneToNine
    ensures At(g, c) !in ds
    ensures forall v :: v in ds <==> v != 0 && v != At(g, c) && exists d :: IsPeer(c, d) && At(g, d) == v
  {
    PlacedDigits(g, AllPeerCells(c)) - {At(g, c)}
  }

  /** The peer digits are the row, column and box digits without the cell's own value. */
  lemma PeerDigitsUnion(g: Grid, c: Cell)
    requires IsGrid(g) && InRange(c)
    ensures PeerDigits(g, c) == (RowDigits(g, c.row) + ColumnDigits(g, c.column) + BoxDigits(g, BoxId(c))) - {At(g, c)}
  {
    UnionMembers(PeerDigits(g, c), RowDigits(g, c.row), ColumnDigits(g, c.column), BoxDigits(g, BoxId(c)), At(g, c)) by {
      forall v ensures v in PeerDigits(g, c) <==> v != At(g, c) && (v in RowDigits(g, c.row) || v in ColumnDigits(g, c.column) || v in BoxDigits(g, BoxId(c))) {
        PeerDigitUnion(g, c, v);
      }
    }
  }

  lemma UnionMembers(p: set<int>, a: set<int>, b: set<int>, c: set<int>, own: int)
    requires forall v :: v in p <==> v != own && (v in a || v in b || v in c)
    ensures p == (a + b + c) - {own}
  {
    assert forall v :: v in p <==> v in (a + b + c) - {own};
  }

  lemma PeerDigitUnion(g: Grid, c: Cell, v: int)
    requires IsGrid(g) && InRange(c)
    ensures v in PeerDigits(g, c) <==>
      v != At(g, c) && (v in RowDigits(g, c.row) || v in ColumnDigits(g, c.column) || v in BoxDigits(g, BoxId(c)))
  {
    if v != At(g, c) && v in RowDigits(g, c.row) {
      var k :| 0 <= k < 9 && At(g, Cell(c.row, k)) == v;
      assert IsPeer(c, Cell(c.row, k));
    } else if v != At(g, c) && v in ColumnDigits(g, c.column) {
      var k :| 0 <= k < 9 && At(g, Cell(k, c.column)) == v;
      assert IsPeer(c, Cell(k, c.column));
    } else if v != At(g, c) && v in BoxDigits(g, BoxId(c)) {
      var d :| InRange(d) && BoxId(d) == BoxId(c) && At(g, d) == v;
      assert IsPeer(c, d);
    }
    if v in PeerDigits(g, c) {
      var d :| IsPeer(c, d) && At(g, d) == v;
      if d.row == c.row {
        assert At(g, Cell(c.row, d.column)) == v;
      } else if d.column == c.column {
        assert At(g, Cell(d.row, c.column)) == v;
      }
    }
  }

  /** On an all-zero grid no digit is placed anywhere. */
  lemma EmptyGridHasNoDigits(g: Grid, i: int, c: Cell)
    requires IsGrid(g) && forall d :: InRange(d) ==> At(g, d) == 0
    requires 0 <= i < 9 && InRange(c)
    ensures RowDigits(g, i) == {} && ColumnDigits(g, i) == {} && BoxDigits(g, i) == {}
    ensures PeerDigits(g, c) == {}
  {
  }
}
