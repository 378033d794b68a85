/**
  The record types of the engine: a cell, a placement, a candidate and an
  elimination. All four are immutable values compared by value, like the
  named tuples they model.
*/
module CoreTypes {
  import opened SeqUtil

  /** A value that may be absent (Python's `None`). */
  datatype Option<T> = None | Some(value: T)

  /** A (row, column) position; in range when both lie in [0, 9). */
  datatype Cell = Cell(row: int, column: int)

  /** A deduction "cell may safely be set to digit". */
  datatype Placement = Placement(cell: Cell, digit: int)

  /** One (cell, digit) candidate, used only inside eliminations. */
  datatype Candidate = Candidate(cell: Cell, digit: int)

  /** A deduction "these candidates may safely be removed", in list order. */
  datatype Elimination = Elimination(candidates: seq<Candidate>)

  predicate InRange(c: Cell) {
    0 <= c.row < 9 && 0 <= c.column < 9
  }

  predicate AllInRange(cells: seq<Cell>) {
    forall i :: 0 <= i < |cells| ==> InRange(cells[i])
  }

  /** Tuple order on cells: by row, then by column. */
  predicate Before(a: Cell, b: Cell) {
    a.row < b.row || (a.row == b.row && a.column < b.column)
  }

  /** Strictly increasing in tuple order, i.e. listed row-major without repeats. */
  predicate RowMajor(cells: seq<Cell>) {
    forall i, j :: 0 <= i < j < |cells| ==> Before(cells[i], cells[j])
  }

  /**
    Candidates listed cell by cell in tuple order, digits strictly
    ascending within a cell; in particular no candidate is listed twice.
  */
  predicate CellMajor(xs: seq<Candidate>) {
    forall i, j :: 0 <= i < j < |xs| ==>
      Before(xs[i].cell, xs[j].cell) || (xs[i].cell == xs[j].cell && xs[i].digit < xs[j].digit)
  }

  /** Cells sort lexicographically: `Before` is a strict total order. */
  lemma BeforeIsStrictTotalOrder(a: Cell, b: Cell, c: Cell)
    ensures !Before(a, a)
    ensures Before(a, b) && Before(b, c) ==> Before(a, c)
    ensures a != b ==> Before(a, b) || Before(b, a)
  {
  }

  lemma RowMajorNoDups(cells: seq<Cell>)
    requires RowMajor(cells)
    ensures NoDups(cells)
  {
  }

  /** In a row-major list, one cell comes earlier than another exactly when it is before it in tuple order. */
  lemma RowMajorIndexOf(cells: seq<Cell>, a: Cell, b: Cell)
    requires RowMajor(cells) && a in cells && b in cells
    ensures IndexOf(cells, a) < IndexOf(cells, b) <==> Before(a, b)
  {
    var i, j := IndexOf(cells, a), IndexOf(cells, b);
    if j < i {
      assert Before(b, a);
    }
  }

  /** A row-major list is its head followed by a row-major list of later cells. */
  lemma RowMajorHead(cells: seq<Cell>)
    requires cells != []
    ensures forall c :: c in cells <==> c == cells[0] || c in cells[1..]
    ensures RowMajor(cells) ==> RowMajor(cells[1..]) && forall c :: c in cells[1..] ==> Before(cells[0], c)
  {
    if RowMajor(cells) {
      forall c | c in cells[1..] ensures Before(cells[0], c) {
        var i :| 0 <= i < |cells[1..]| && cells[1..][i] == c;
        assert cells[i + 1] == c;
      }
    }
  }

  /** A cell before every cell of a row-major list can be put in front of it. */
  lemma RowMajorCons(h: Cell, rest: seq<Cell>)
    requires RowMajor(rest) && forall c :: c in rest ==> Before(h, c)
    ensures RowMajor([h] + rest)
  {
    var s := [h] + rest;
    forall i, j | 0 <= i < j < |s| ensures Before(s[i], s[j]) {
      assert s[j] == rest[j - 1] && rest[j - 1] in rest;
      if i > 0 {
        assert s[i] == rest[i - 1];
      }
    }
  }
}
