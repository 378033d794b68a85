/**
  The cells of a row, of a column and of a box, each as a list of nine
  cells in row-major order.
*/
module Cells {
  import opened SeqUtil
  import opened CoreTypes
  import opened Locations

  /** Row `row`, left to right. */
  function RowCells(row: int): (r: seq<Cell>)
    ensures |r| == 9
    ensures forall c :: c in r <==> c.row == row && 0 <= c.column < 9
    ensures RowMajor(r)
    ensures 0 <= row < 9 ==> AllInRange(r)
  {
    var r := seq(9, i => Cell(row, i));
    forall c: Cell | c.row == row && 0 <= c.column < 9 ensures c in r {
      assert r[c.column] == c;
    }
    r
  }

  /** Column `column`, top to bottom. */
  function ColumnCells(column: int): (r: seq<Cell>)
    ensures |r| == 9
    ensures forall c :: c in r <==> c.column == column && 0 <= c.row < 9
    ensures RowMajor(r)
    ensures 0 <= column < 9 ==> AllInRange(r)
  {
    var r := seq(9, i => Cell(i, column));
    forall c: Cell | c.column == column && 0 <= c.row < 9 ensures c in r {
      assert r[c.row] == c;
    }
    r
  }

  /** Top-left corner of box `box`: (box div 3 * 3, box mod 3 * 3). */
  function BoxCorner(box: int): Cell {
    Cell(box / 3 * 3, box % 3 * 3)
  }

  /** The 3x3 block whose corner is `BoxCorner(box)`, row-major. */
  function BoxCells(box: int): (r: seq<Cell>)
    ensures |r| == 9
    ensures forall c :: c in r <==> InBlock(c, BoxCorner(box))
    ensures RowMajor(r)
    ensures 0 <= box < 9 ==> AllInRange(r)
  {
    var corner := BoxCorner(box);
    var r := seq(9, i => Cell(corner.row + i / 3, corner.column + i % 3));
    forall c | InBlock(c, corner) ensures c in r {
      var i := (c.row - corner.row) * 3 + (c.column - corner.column);
      assert r[i] == c;
    }
    r
  }

  /** `c` lies in the 3x3 block whose top-left corner is `corner`. */
  predicate InBlock(c: Cell, corner: Cell) {
    corner.row <= c.row < corner.row + 3 && corner.column <= c.column < corner.column + 3
  }

  /** For a box index in range, the box's cells are exactly the cells with that box id. */
  lemma BoxCellsHaveBoxId(box: int)
    requires 0 <= box < 9
    ensures forall c :: c in BoxCells(box) <==> InRange(c) && BoxId(c) == box
  {
    forall c: Cell
      ensures InBlock(c, BoxCorner(box)) <==> InRange(c) && BoxId(c) == box
    {
      if InRange(c) && BoxId(c) == box {
        assert c.row / 3 == box / 3 && c.column / 3 == box % 3 by {
          var b, s := c.row / 3, c.column / 3;
          assert 0 <= b < 3 && 0 <= s < 3;
          assert b * 3 + s == box;
        }
      }
    }
  }

  /** Every cell of a house lies on the board when its index is in range. */
  lemma HouseCellsInRange(i: int)
    requires 0 <= i < 9
    ensures AllInRange(RowCells(i)) && AllInRange(ColumnCells(i)) && AllInRange(BoxCells(i))
  {
    BoxCellsHaveBoxId(i);
  }

  /** A row and a column share exactly one cell. */
  lemma RowColumnMeet(row: int, column: int)
    requires 0 <= row < 9 && 0 <= column < 9
    ensures forall c :: c in RowCells(row) && c in ColumnCells(column) <==> c == Cell(row, column)
  {
  }
}
