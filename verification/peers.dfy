/**
  The peers of a cell: the other cells of its row, its column and its box.
  `AllPeerCells` concatenates the three lists and removes repeats keeping
  first occurrences, as `dict.fromkeys` does.
*/
module Peers {
  import opened SeqUtil
  import opened CoreTypes
  import opened Locations
  import opened Cells

  /** `d` is a peer of `c`: another cell in its row, column or box. */
  predicate IsPeer(c: Cell, d: Cell) {
    InRange(c) && InRange(d) && d != c && (d.row == c.row || d.column == c.column || BoxId(d) == BoxId(c))
  }

  /** The peer relation is symmetric. */
  lemma PeerSymmetric(c: Cell, d: Cell)
    ensures IsPeer(c, d) <==> IsPeer(d, c)
  {
  }

  /** `cells` with every occurrence of `c` filtered out, order kept. */
  function Without(cells: seq<Cell>, c: Cell): (r: seq<Cell>)
    ensures forall d :: d in r <==> d in cells && d != c
    ensures c !in cells ==> r == cells
    ensures RowMajor(cells) ==> RowMajor(r)
    ensures NoDups(cells) && c in cells ==> |r| == |cells| - 1
    decreases |cells|
  {
    if cells == [] then []
    else
      var rest := Without(cells[1..], c);
      RowMajorHead(cells);
      assert cells == [cells[0]] + cells[1..];
      assert RowMajor(cells) ==> RowMajor([cells[0]] + rest) by {
        if RowMajor(cells) {
          RowMajorCons(cells[0], rest);
        }
      }
      (if cells[0] == c then [] else [cells[0]]) + rest
  }

  /** The other cells of `c`'s row, left to right. */
  function RowPeerCells(c: Cell): (r: seq<Cell>)
    ensures forall d :: d in r <==> d.row == c.row && 0 <= d.column < 9 && d != c
    ensures RowMajor(r)
    ensures InRange(c) ==> |r| == 8
  {
    RowMajorNoDups(RowCells(c.row));
    Without(RowCells(c.row), c)
  }

  /** The other cells of `c`'s column, top to bottom. */
  function ColumnPeerCells(c: Cell): (r: seq<Cell>)
    ensures forall d :: d in r <==> d.column == c.column && 0 <= d.row < 9 && d != c
    ensures RowMajor(r)
    ensures InRange(c) ==> |r| == 8
  {
    RowMajorNoDups(ColumnCells(c.column));
    Without(ColumnCells(c.column), c)
  }

  /** The other cells of `c`'s box, row-major. */
  function BoxPeerCells(c: Cell): (r: seq<Cell>)
    ensures InRange(c) ==> forall d :: d in r <==> InRange(d) && BoxId(d) == BoxId(c) && d != c
    ensures RowMajor(r)
    ensures InRange(c) ==> |r| == 8
  {
    assert InRange(c) ==> forall d :: d in BoxCells(BoxId(c)) <==> InRange(d) && BoxId(d) == BoxId(c) by {
      if InRange(c) {
        BoxCellsHaveBoxId(BoxId(c));
      }
    }
    RowMajorNoDups(BoxCells(BoxId(c)));
    Without(BoxCells(BoxId(c)), c)
  }

  /**
    Row peers, then column peers, then box peers, each cell kept at its
    first occurrence.
  */
  function AllPeerCells(c: Cell): (r: seq<Cell>)
    ensures NoDups(r)
    ensures c !in r
    ensures InRange(c) ==> forall d :: d in r <==> IsPeer(c, d)
    ensures InRange(c) ==> AllInRange(r)
  {
    var r := Dedup(RowPeerCells(c) + ColumnPeerCells(c) + BoxPeerCells(c));
    assert InRange(c) ==> AllInRange(r) by {
      forall i | 0 <= i < |r| && InRange(c) ensures InRange(r[i]) {
        assert r[i] in r;
      }
    }
    r
  }

  /**
    The order of `AllPeerCells`: all row peers, then all column peers, then
    the box peers not already listed (those off the cell's row and column).
  */
  lemma AllPeerCellsOrder(c: Cell)
    ensures AllPeerCells(c) == RowPeerCells(c) + ColumnPeerCells(c)
      + Unseen(BoxPeerCells(c), RowPeerCells(c) + ColumnPeerCells(c))
  {
    var row, col, box := RowPeerCells(c), ColumnPeerCells(c), BoxPeerCells(c);
    RowMajorNoDups(row);
    RowMajorNoDups(col);
    RowMajorNoDups(box);
    assert NoDups(row + col) by {
      forall i, j | 0 <= i < j < |row + col| ensures (row + col)[i] != (row + col)[j] {
        if i < |row| && j >= |row| {
          assert (row + col)[i] in row && (row + col)[j] in col;
        }
      }
    }
    DedupAppend(row + col, box);
  }

  /** The two other indices in the same group of three as `x`, ascending. */
  function OtherTwo(x: int): (p: (int, int))
    requires 0 <= x < 9
    ensures p.0 < p.1 && p.0 != x && p.1 != x
    ensures p.0 / 3 == x / 3 && p.1 / 3 == x / 3
    ensures 0 <= p.0 < 9 && 0 <= p.1 < 9
  {
    match x
    case 0 => (1, 2) case 1 => (0, 2) case 2 => (0, 1)
    case 3 => (4, 5) case 4 => (3, 5) case 5 => (3, 4)
    case 6 => (7, 8) case 7 => (6, 8) case _ => (6, 7)
  }

  /** `OtherTwo(x)` lists every other index of `x`'s group of three. */
  lemma OtherTwoIff(x: int, y: int)
    requires 0 <= x < 9
    ensures 0 <= y < 9 && y / 3 == x / 3 && y != x <==> y == OtherTwo(x).0 || y == OtherTwo(x).1
  {
  }

  /** The box peers not already among the row and column peers. */
  lemma UnseenBoxPeer(c: Cell, d: Cell)
    requires InRange(c)
    ensures d in Unseen(BoxPeerCells(c), RowPeerCells(c) + ColumnPeerCells(c)) <==>
      InRange(d) && BoxId(d) == BoxId(c) && d.row != c.row && d.column != c.column
  {
  }

  /**
    The box peers not in the cell's row or column are the four cells whose
    row and column both lie in the cell's band and stack but differ from it.
  */
  lemma BoxOnlyPeer(c: Cell, d: Cell)
    requires InRange(c)
    ensures d in Unseen(BoxPeerCells(c), RowPeerCells(c) + ColumnPeerCells(c)) <==>
      (d.row == OtherTwo(c.row).0 || d.row == OtherTwo(c.row).1) &&
      (d.column == OtherTwo(c.column).0 || d.column == OtherTwo(c.column).1)
  {
    UnseenBoxPeer(c, d);
    OtherTwoIff(c.row, d.row);
    OtherTwoIff(c.column, d.column);
    if InRange(d) {
      SameBoxIff(c, d);
    }
  }

  /** The four cells of `c`'s box off its row and column. */
  function BoxOnlyCells(c: Cell): set<Cell>
    requires InRange(c)
  {
    var rows, columns := OtherTwo(c.row), OtherTwo(c.column);
    {Cell(rows.0, columns.0), Cell(rows.0, columns.1), Cell(rows.1, columns.0), Cell(rows.1, columns.1)}
  }

  lemma BoxOnlyCellsCount(c: Cell)
    requires InRange(c)
    ensures |BoxOnlyCells(c)| == 4
  {
  }

  lemma BoxOnlyCellsMember(c: Cell, d: Cell)
    requires InRange(c)
    ensures d in BoxOnlyCells(c) <==>
      (d.row == OtherTwo(c.row).0 || d.row == OtherTwo(c.row).1) &&
      (d.column == OtherTwo(c.column).0 || d.column == OtherTwo(c.column).1)
  {
  }

  lemma UnseenBoxPeers(c: Cell)
    requires InRange(c)
    ensures Elems(Unseen(BoxPeerCells(c), RowPeerCells(c) + ColumnPeerCells(c))) == BoxOnlyCells(c)
  {
    var u := Unseen(BoxPeerCells(c), RowPeerCells(c) + ColumnPeerCells(c));
    var b := BoxOnlyCells(c);
    forall d: Cell ensures d in Elems(u) <==> d in b {
      BoxOnlyPeer(c, d);
      BoxOnlyCellsMember(c, d);
    }
  }

  /** A cell on the board has exactly 20 peers. */
  lemma AllPeerCellsCount(c: Cell)
    requires InRange(c)
    ensures |AllPeerCells(c)| == 20
  {
    AllPeerCellsOrder(c);
    var u := Unseen(BoxPeerCells(c), RowPeerCells(c) + ColumnPeerCells(c));
    RowMajorNoDups(BoxPeerCells(c));
    UnseenBoxPeers(c);
    BoxOnlyCellsCount(c);
    CardElemsNoDups(u);
  }
}
