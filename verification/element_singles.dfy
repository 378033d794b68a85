/**
  The older single finder over all nine houses of one kind at once
  (rows, columns or nonets, chosen by the element function passed in).
  Within each house it counts candidates of the unset elements and reports
  every element, set or not, whose candidates contain a digit counted once;
  unlike the hidden-single strategy it has no size filter, so an element
  with a single candidate is reported too.
*/
module ElementSingles {
  import opened SeqUtil
  import opened CoreTypes
  import opened Board
  import opened Locations
  import opened Cells
  import opened Deduction
  import HiddenSingle

  /** The counter of one house: digit to number of unset elements listing it. */
  function CountCandidatesInElements(g: Grid, cs: CandidateGrid, elements: seq<Cell>): (counts: map<int, nat>)
    requires IsGrid(g) && IsCandidateGrid(cs) && AllInRange(elements)
    ensures forall d :: d in counts <==> |Holders(g, cs, elements, d)| > 0
    ensures forall d :: d in counts ==> counts[d] == |Holders(g, cs, elements, d)|
  {
    HiddenSingle.CandidateCounts(g, cs, elements)
  }

  /** The placements of one element: each single its candidates contain, in singles order. */
  function ElementPlacements(cs: CandidateGrid, c: Cell, singles: seq<int>): (ps: seq<Placement>)
    requires IsCandidateGrid(cs) && InRange(c)
    ensures forall p :: p in ps <==> p.cell == c && p.digit in singles && p.digit in CandsAt(cs, c)
    ensures NoDups(singles) ==> HiddenSingle.DigitOrder(ps, singles)
    decreases |singles|
  {
    if singles == [] then []
    else
      assert forall x :: x in singles <==> x == singles[0] || x in singles[1..];
      var head := if singles[0] in CandsAt(cs, c) then [Placement(c, singles[0])] else [];
      var rest := ElementPlacements(cs, c, singles[1..]);
      assert NoDups(singles) ==> HiddenSingle.DigitOrder(head + rest, singles) by {
        if NoDups(singles) {
          HiddenSingle.DigitOrderStep(singles, head, rest);
        }
      }
      head + rest
  }

  /** Element by element, the placements of each element of one house. */
  function HousePlacements(cs: CandidateGrid, elements: seq<Cell>, singles: seq<int>): (ps: seq<Placement>)
    requires IsCandidateGrid(cs) && AllInRange(elements)
    ensures forall p :: p in ps <==> p.cell in elements && p.digit in singles && p.digit in CandsAt(cs, p.cell)
    ensures NoDups(elements) && NoDups(singles) ==> HiddenSingle.ListOrder(ps, elements, singles)
    decreases |elements|
  {
    if elements == [] then []
    else
      assert forall x :: x in elements <==> x == elements[0] || x in elements[1..];
      var head := ElementPlacements(cs, elements[0], singles);
      var rest := HousePlacements(cs, elements[1..], singles);
      assert NoDups(elements) && NoDups(singles) ==> HiddenSingle.ListOrder(head + rest, elements, singles) by {
        if NoDups(elements) && NoDups(singles) {
          HiddenSingle.ListOrderStep(elements, singles, head, rest);
        }
      }
      head + rest
  }

  /** The first of the houses `from`..8 holding `c`, or 9 when none does. */
  function HouseOf(elements: int -> seq<Cell>, c: Cell, from: int): (h: int)
    requires 0 <= from <= 9
    ensures from <= h <= 9
    ensures h < 9 ==> c in elements(h)
    ensures forall i :: from <= i < h ==> c !in elements(i)
    decreases 9 - from
  {
    if from == 9 then 9
    else if c in elements(from) then from
    else HouseOf(elements, c, from + 1)
  }

  /** No cell lies in two of the nine houses, as with rows, columns or nonets. */
  predicate Disjoint(elements: int -> seq<Cell>) {
    forall i, j, c :: 0 <= i < j < 9 && c in elements(i) ==> c !in elements(j)
  }

  /** With disjoint houses, the house of a cell is the one holding it. */
  lemma HouseOfIs(elements: int -> seq<Cell>, c: Cell, i: int)
    requires Disjoint(elements) && 0 <= i < 9 && c in elements(i)
    ensures HouseOf(elements, c, 0) == i
  {
  }

  /**
    `p` is output before `q`: its house comes first, or in the same house
    its element comes first, or for the same element its digit comes first
    among that house's singles.
  */
  predicate OutputBefore(g: Grid, cs: CandidateGrid, elements: int -> seq<Cell>, p: Placement, q: Placement)
    requires IsGrid(g) && IsCandidateGrid(cs)
    requires forall i :: 0 <= i < 9 ==> AllInRange(elements(i))
  {
    var a := HouseOf(elements, p.cell, 0);
    var b := HouseOf(elements, q.cell, 0);
    a < b ||
    (a == b < 9 &&
      (IndexOf(elements(a), p.cell) < IndexOf(elements(a), q.cell) ||
       (p.cell == q.cell &&
        IndexOf(HiddenSingle.Singles(g, cs, elements(a)), p.digit) < IndexOf(HiddenSingle.Singles(g, cs, elements(a)), q.digit))))
  }

  /** The placements are listed house by house, element by element, then by singles. */
  predicate HouseOrder(g: Grid, cs: CandidateGrid, elements: int -> seq<Cell>, ps: seq<Placement>)
    requires IsGrid(g) && IsCandidateGrid(cs)
    requires forall i :: 0 <= i < 9 ==> AllInRange(elements(i))
  {
    forall i, j :: 0 <= i < j < |ps| ==> OutputBefore(g, cs, elements, ps[i], ps[j])
  }

  /** The placements of house `from` go before those of the later houses. */
  lemma HouseOrderStep(g: Grid, cs: CandidateGrid, elements: int -> seq<Cell>, from: int, here: seq<Placement>, rest: seq<Placement>)
    requires IsGrid(g) && IsCandidateGrid(cs) && 0 <= from < 9
    requires forall i :: 0 <= i < 9 ==> AllInRange(elements(i))
    requires Disjoint(elements)
    requires forall p :: p in here ==> p.cell in elements(from)
    requires HiddenSingle.ListOrder(here, elements(from), HiddenSingle.Singles(g, cs, elements(from)))
    requires forall p :: p in rest ==> exists i :: from < i < 9 && p.cell in elements(i)
    requires HouseOrder(g, cs, elements, rest)
    ensures HouseOrder(g, cs, elements, here + rest)
  {
    forall p | p in here ensures HouseOf(elements, p.cell, 0) == from {
      HouseOfIs(elements, p.cell, from);
    }
    forall p | p in rest ensures from < HouseOf(elements, p.cell, 0) {
      var i :| from < i < 9 && p.cell in elements(i);
      HouseOfIs(elements, p.cell, i);
    }
    var r := here + rest;
    forall i, j | 0 <= i < j < |r| ensures OutputBefore(g, cs, elements, r[i], r[j]) {
      if j < |here| {
        assert r[i] == here[i] && r[j] == here[j] && here[i] in here && here[j] in here;
      } else if i < |here| {
        assert r[i] == here[i] && here[i] in here;
        assert r[j] == rest[j - |here|] && rest[j - |here|] in rest;
      } else {
        assert r[i] == rest[i - |here|] && r[j] == rest[j - |here|];
      }
    }
  }

  /** The placements of houses `from`..8, house by house. */
  function HousesFrom(g: Grid, cs: CandidateGrid, elements: int -> seq<Cell>, from: int): (ps: seq<Placement>)
    requires IsGrid(g) && IsCandidateGrid(cs) && 0 <= from <= 9
    requires forall i :: 0 <= i < 9 ==> AllInRange(elements(i))
    ensures forall p :: p in ps <==>
      exists i :: from <= i < 9 && p.cell in elements(i) && InRange(p.cell) && p.digit in CandsAt(cs, p.cell) && |Holders(g, cs, elements(i), p.digit)| == 1
    ensures Disjoint(elements) && (forall i :: 0 <= i < 9 ==> NoDups(elements(i))) ==> HouseOrder(g, cs, elements, ps)
    decreases 9 - from
  {
    if from == 9 then []
    else
      var here := HousePlacements(cs, elements(from), HiddenSingle.Singles(g, cs, elements(from)));
      var rest := HousesFrom(g, cs, elements, from + 1);
      assert Disjoint(elements) && (forall i :: 0 <= i < 9 ==> NoDups(elements(i))) ==> HouseOrder(g, cs, elements, here + rest) by {
        if Disjoint(elements) && (forall i :: 0 <= i < 9 ==> NoDups(elements(i))) {
          assert NoDups(elements(from));
          HouseOrderStep(g, cs, elements, from, here, rest);
        }
      }
      HousesStep(g, cs, elements, from, here, rest);
      here + rest
  }

  /** The placements of house `from` followed by those of the later houses are those of houses `from` onwards. */
  lemma HousesStep(g: Grid, cs: CandidateGrid, elements: int -> seq<Cell>, from: int, here: seq<Placement>, rest: seq<Placement>)
    requires IsGrid(g) && IsCandidateGrid(cs) && 0 <= from < 9
    requires forall i :: 0 <= i < 9 ==> AllInRange(elements(i))
    requires here == HousePlacements(cs, elements(from), HiddenSingle.Singles(g, cs, elements(from)))
    requires forall p :: p in rest <==>
      exists i :: from + 1 <= i < 9 && p.cell in elements(i) && InRange(p.cell) && p.digit in CandsAt(cs, p.cell) && |Holders(g, cs, elements(i), p.digit)| == 1
    ensures forall p :: p in here + rest <==>
      exists i :: from <= i < 9 && p.cell in elements(i) && InRange(p.cell) && p.digit in CandsAt(cs, p.cell) && |Holders(g, cs, elements(i), p.digit)| == 1
  {
    forall p | p in here
      ensures exists i :: from <= i < 9 && p.cell in elements(i) && InRange(p.cell) && p.digit in CandsAt(cs, p.cell) && |Holders(g, cs, elements(i), p.digit)| == 1
    {
      assert p.cell in elements(from);
    }
    forall p: Placement |
      exists i :: from <= i < 9 && p.cell in elements(i) && InRange(p.cell) && p.digit in CandsAt(cs, p.cell) && |Holders(g, cs, elements(i), p.digit)| == 1
      ensures p in here + rest
    {
      var i :| from <= i < 9 && p.cell in elements(i) && InRange(p.cell) &&
        p.digit in CandsAt(cs, p.cell) && |Holders(g, cs, elements(i), p.digit)| == 1;
      if i == from {
        assert p in here;
      } else {
        assert p in rest;
      }
    }
  }

  /**
    Over the nine houses `elements(0)`..`elements(8)`: an element is
    reported with digit `d` exactly when its candidates contain `d` and `d`
    is listed by exactly one unset element of one of the houses holding it.
    When the houses are disjoint and none repeats a cell, each placement is
    output once, house by house, then in element order, then in the order
    of the house's singles.
  */
  function FindInElements(g: Grid, cs: CandidateGrid, elements: int -> seq<Cell>): (ps: seq<Placement>)
    requires IsGrid(g) && IsCandidateGrid(cs)
    requires forall i :: 0 <= i < 9 ==> AllInRange(elements(i))
    ensures forall p :: p in ps <==>
      exists i :: 0 <= i < 9 && p.cell in elements(i) && InRange(p.cell) && p.digit in CandsAt(cs, p.cell) && |Holders(g, cs, elements(i), p.digit)| == 1
    ensures Disjoint(elements) && (forall i :: 0 <= i < 9 ==> NoDups(elements(i))) ==>
      NoDups(ps) && HouseOrder(g, cs, elements, ps)
  {
    HousesFrom(g, cs, elements, 0)
  }

  /**
    Over disjoint row-major houses where `key` names the house of each
    reported cell, the output is ordered by house, then row-major, then by
    that house's singles.
  */
  lemma KeyedOrder(g: Grid, cs: CandidateGrid, elements: int -> seq<Cell>, ps: seq<Placement>, key: Cell -> int)
    requires IsGrid(g) && IsCandidateGrid(cs)
    requires forall i :: 0 <= i < 9 ==> AllInRange(elements(i)) && RowMajor(elements(i))
    requires Disjoint(elements) && HouseOrder(g, cs, elements, ps)
    requires forall p :: p in ps ==> 0 <= key(p.cell) < 9 && p.cell in elements(key(p.cell))
    ensures forall i, j :: 0 <= i < j < |ps| ==>
      key(ps[i].cell) < key(ps[j].cell) ||
      (key(ps[i].cell) == key(ps[j].cell) && Before(ps[i].cell, ps[j].cell)) ||
      (ps[i].cell == ps[j].cell && 0 <= key(ps[i].cell) < 9 &&
       IndexOf(HiddenSingle.Singles(g, cs, elements(key(ps[i].cell))), ps[i].digit) <
       IndexOf(HiddenSingle.Singles(g, cs, elements(key(ps[i].cell))), ps[j].digit))
  {
    forall i, j | 0 <= i < j < |ps|
      ensures key(ps[i].cell) < key(ps[j].cell) ||
        (key(ps[i].cell) == key(ps[j].cell) && Before(ps[i].cell, ps[j].cell)) ||
        (ps[i].cell == ps[j].cell && 0 <= key(ps[i].cell) < 9 &&
         IndexOf(HiddenSingle.Singles(g, cs, elements(key(ps[i].cell))), ps[i].digit) <
         IndexOf(HiddenSingle.Singles(g, cs, elements(key(ps[i].cell))), ps[j].digit))
    {
      var p, q := ps[i], ps[j];
      assert p in ps && q in ps;
      HouseOfIs(elements, p.cell, key(p.cell));
      HouseOfIs(elements, q.cell, key(q.cell));
      assert OutputBefore(g, cs, elements, p, q);
      if key(p.cell) == key(q.cell) {
        RowMajorIndexOf(elements(key(p.cell)), p.cell, q.cell);
      }
    }
  }

  /** Every hidden single of one of the houses is among the results. */
  lemma HiddenSinglesIncluded(g: Grid, cs: CandidateGrid, elements: int -> seq<Cell>, i: int, p: Placement)
    requires IsGrid(g) && IsCandidateGrid(cs)
    requires forall i :: 0 <= i < 9 ==> AllInRange(elements(i))
    requires 0 <= i < 9 && p in HiddenSingle.FindPlacements(g, cs, elements(i))
    ensures p in FindInElements(g, cs, elements)
  {
  }

  /**
    Over houses, the results are sound: in every completion the candidates
    keep, each reported element takes its reported digit.
  */
  lemma FindInElementsSound(g: Grid, cs: CandidateGrid, elements: int -> seq<Cell>, s: Grid, p: Placement)
    requires forall i :: 0 <= i < 9 ==> AllInRange(elements(i)) && IsHouse(elements(i))
    requires Keeps(g, cs, s) && Bounded(g, cs) && Pruned(g, cs)
    requires p in FindInElements(g, cs, elements)
    ensures At(s, p.cell) == p.digit
  {
    var i :| 0 <= i < 9 && p.cell in elements(i) && InRange(p.cell) &&
      p.digit in CandsAt(cs, p.cell) && |Holders(g, cs, elements(i), p.digit)| == 1;
    UniqueHolderForced(g, cs, elements(i), s, p.cell, p.digit);
  }

  /** Different rows share no cell, nor do different columns, and none repeats a cell. */
  lemma LinesDisjoint()
    ensures Disjoint(RowCells) && Disjoint(ColumnCells)
    ensures forall i :: 0 <= i < 9 ==> NoDups(RowCells(i)) && NoDups(ColumnCells(i))
  {
    forall i | 0 <= i < 9 ensures NoDups(RowCells(i)) && NoDups(ColumnCells(i)) {
      RowMajorNoDups(RowCells(i));
      RowMajorNoDups(ColumnCells(i));
    }
  }

  /**
    Rows: a cell is reported with `d` when it lists `d` and exactly one
    unset cell of its row does. Each placement is output once, row by row,
    left to right, and for one cell in the order of its row's singles.
  */
  function FindInRows(g: Grid, cs: CandidateGrid): (ps: seq<Placement>)
    requires IsGrid(g) && IsCandidateGrid(cs)
    ensures forall p :: p in ps <==>
      InRange(p.cell) && p.digit in CandsAt(cs, p.cell) && |Holders(g, cs, RowCells(p.cell.row), p.digit)| == 1
    ensures NoDups(ps)
    ensures forall i, j :: 0 <= i < j < |ps| ==>
      Before(ps[i].cell, ps[j].cell) ||
      (ps[i].cell == ps[j].cell && 0 <= ps[i].cell.row < 9 &&
       IndexOf(HiddenSingle.Singles(g, cs, RowCells(ps[i].cell.row)), ps[i].digit) <
       IndexOf(HiddenSingle.Singles(g, cs, RowCells(ps[i].cell.row)), ps[j].digit))
  {
    var ps := FindInElements(g, cs, RowCells);
    RowsComplete(g, cs, ps);
    RowsOrdered(g, cs, ps);
    ps
  }

  /** The row search reports each placement once, row by row. */
  lemma RowsOrdered(g: Grid, cs: CandidateGrid, ps: seq<Placement>)
    requires IsGrid(g) && IsCandidateGrid(cs) && ps == FindInElements(g, cs, RowCells)
    requires forall p :: p in ps ==> 0 <= p.cell.row < 9 && p.cell in RowCells(p.cell.row)
    ensures NoDups(ps)
    ensures forall i, j :: 0 <= i < j < |ps| ==>
      Before(ps[i].cell, ps[j].cell) ||
      (ps[i].cell == ps[j].cell && 0 <= ps[i].cell.row < 9 &&
       IndexOf(HiddenSingle.Singles(g, cs, RowCells(ps[i].cell.row)), ps[i].digit) <
       IndexOf(HiddenSingle.Singles(g, cs, RowCells(ps[i].cell.row)), ps[j].digit))
  {
    LinesDisjoint();
    KeyedOrder(g, cs, RowCells, ps, (c: Cell) => c.row);
  }

  /**
    Every single of a row is found when the rows are searched, and
    each one found lies in its own cell's row.
  */
  lemma RowsComplete(g: Grid, cs: CandidateGrid, ps: seq<Placement>)
    requires IsGrid(g) && IsCandidateGrid(cs) && ps == FindInElements(g, cs, RowCells)
    ensures forall p: Placement :: InRange(p.cell) && p.digit in CandsAt(cs, p.cell) && |Holders(g, cs, RowCells(p.cell.row), p.digit)| == 1 ==> p in ps
    ensures forall p :: p in ps ==> 0 <= p.cell.row < 9 && p.cell in RowCells(p.cell.row)
  {
    forall p | p in ps ensures 0 <= p.cell.row < 9 && p.cell in RowCells(p.cell.row) {
      var i :| 0 <= i < 9 && p.cell in RowCells(i) && InRange(p.cell) &&
        p.digit in CandsAt(cs, p.cell) && |Holders(g, cs, RowCells(i), p.digit)| == 1;
    }
    forall p: Placement | InRange(p.cell) && p.digit in CandsAt(cs, p.cell) && |Holders(g, cs, RowCells(p.cell.row), p.digit)| == 1
      ensures p in ps
    {
      assert p.cell in RowCells(p.cell.row);
    }
  }

  /**
    Columns: a cell is reported with `d` when it lists `d` and exactly one
    unset cell of its column does. Each placement is output once, column by
    column, top to bottom, and for one cell in the order of its column's
    singles.
  */
  function FindInColumns(g: Grid, cs: CandidateGrid): (ps: seq<Placement>)
    requires IsGrid(g) && IsCandidateGrid(cs)
    ensures forall p :: p in ps <==>
      InRange(p.cell) && p.digit in CandsAt(cs, p.cell) && |Holders(g, cs, ColumnCells(p.cell.column), p.digit)| == 1
    ensures NoDups(ps)
    ensures forall i, j :: 0 <= i < j < |ps| ==>
      ps[i].cell.column < ps[j].cell.column ||
      (ps[i].cell.column == ps[j].cell.column && ps[i].cell.row < ps[j].cell.row) ||
      (ps[i].cell == ps[j].cell && 0 <= ps[i].cell.column < 9 &&
       IndexOf(HiddenSingle.Singles(g, cs, ColumnCells(ps[i].cell.column)), ps[i].digit) <
       IndexOf(HiddenSingle.Singles(g, cs, ColumnCells(ps[i].cell.column)), ps[j].digit))
  {
    var ps := FindInElements(g, cs, ColumnCells);
    ColumnsComplete(g, cs, ps);
    ColumnsOrdered(g, cs, ps);
    ps
  }

  /** The column search reports each placement once, column by column. */
  lemma ColumnsOrdered(g: Grid, cs: CandidateGrid, ps: seq<Placement>)
    requires IsGrid(g) && IsCandidateGrid(cs) && ps == FindInElements(g, cs, ColumnCells)
    requires forall p :: p in ps ==> 0 <= p.cell.column < 9 && p.cell in ColumnCells(p.cell.column)
    ensures NoDups(ps)
    ensures forall i, j :: 0 <= i < j < |ps| ==>
      ps[i].cell.column < ps[j].cell.column ||
      (ps[i].cell.column == ps[j].cell.column && ps[i].cell.row < ps[j].cell.row) ||
      (ps[i].cell == ps[j].cell && 0 <= ps[i].cell.column < 9 &&
       IndexOf(HiddenSingle.Singles(g, cs, ColumnCells(ps[i].cell.column)), ps[i].digit) <
       IndexOf(HiddenSingle.Singles(g, cs, ColumnCells(ps[i].cell.column)), ps[j].digit))
  {
    LinesDisjoint();
    KeyedOrder(g, cs, ColumnCells, ps, (c: Cell) => c.column);
  }

  /**
    Every single of a column is found when the columns are searched, and
    each one found lies in its own cell's column.
  */
  lemma ColumnsComplete(g: Grid, cs: CandidateGrid, ps: seq<Placement>)
    requires IsGrid(g) && IsCandidateGrid(cs) && ps == FindInElements(g, cs, ColumnCells)
    ensures forall p: Placement :: InRange(p.cell) && p.digit in CandsAt(cs, p.cell) && |Holders(g, cs, ColumnCells(p.cell.column), p.digit)| == 1 ==> p in ps
    ensures forall p :: p in ps ==> 0 <= p.cell.column < 9 && p.cell in ColumnCells(p.cell.column)
  {
    forall p | p in ps ensures 0 <= p.cell.column < 9 && p.cell in ColumnCells(p.cell.column) {
      var i :| 0 <= i < 9 && p.cell in ColumnCells(i) && InRange(p.cell) &&
        p.digit in CandsAt(cs, p.cell) && |Holders(g, cs, ColumnCells(i), p.digit)| == 1;
    }
    forall p: Placement | InRange(p.cell) && p.digit in CandsAt(cs, p.cell) && |Holders(g, cs, ColumnCells(p.cell.column), p.digit)| == 1
      ensures p in ps
    {
      assert p.cell in ColumnCells(p.cell.column);
    }
  }

  /**
    Nonets: a cell is reported with `d` when it lists `d` and exactly one
    unset cell of its nonet does. Each placement is output once, nonet by
    nonet, row-major within the nonet, and for one cell in the order of its
    nonet's singles.
  */
  function FindInNonets(g: Grid, cs: CandidateGrid): (ps: seq<Placement>)
    requires IsGrid(g) && IsCandidateGrid(cs)
    ensures forall p :: p in ps <==>
      InRange(p.cell) && p.digit in CandsAt(cs, p.cell) && |Holders(g, cs, BoxCells(BoxId(p.cell)), p.digit)| == 1
    ensures NoDups(ps)
    ensures forall i, j :: 0 <= i < j < |ps| ==>
      BoxId(ps[i].cell) < BoxId(ps[j].cell) ||
      (BoxId(ps[i].cell) == BoxId(ps[j].cell) && Before(ps[i].cell, ps[j].cell)) ||
      (ps[i].cell == ps[j].cell && 0 <= BoxId(ps[i].cell) < 9 &&
       IndexOf(HiddenSingle.Singles(g, cs, BoxCells(BoxId(ps[i].cell))), ps[i].digit) <
       IndexOf(HiddenSingle.Singles(g, cs, BoxCells(BoxId(ps[i].cell))), ps[j].digit))
  {
    var ps := FindInElements(g, cs, BoxCells);
    forall p: Placement ensures p in ps <==>
      InRange(p.cell) && p.digit in CandsAt(cs, p.cell) && |Holders(g, cs, BoxCells(BoxId(p.cell)), p.digit)| == 1
    {
      if InRange(p.cell) {
        BoxCellsHaveBoxId(BoxId(p.cell));
        assert p.cell in BoxCells(BoxId(p.cell));
      }
      if p in ps {
        var i :| 0 <= i < 9 && p.cell in BoxCells(i) && InRange(p.cell) &&
          p.digit in CandsAt(cs, p.cell) && |Holders(g, cs, BoxCells(i), p.digit)| == 1;
        BoxCellsHaveBoxId(i);
      }
    }
    NonetsOrdered(g, cs, ps);
    ps
  }

  /** The nonet output is ordered by nonet, then row-major, then by the nonet's singles. */
  lemma NonetsOrdered(g: Grid, cs: CandidateGrid, ps: seq<Placement>)
    requires IsGrid(g) && IsCandidateGrid(cs) && ps == FindInElements(g, cs, BoxCells)
    ensures NoDups(ps)
    ensures forall i, j :: 0 <= i < j < |ps| ==>
      BoxId(ps[i].cell) < BoxId(ps[j].cell) ||
      (BoxId(ps[i].cell) == BoxId(ps[j].cell) && Before(ps[i].cell, ps[j].cell)) ||
      (ps[i].cell == ps[j].cell && 0 <= BoxId(ps[i].cell) < 9 &&
       IndexOf(HiddenSingle.Singles(g, cs, BoxCells(BoxId(ps[i].cell))), ps[i].digit) <
       IndexOf(HiddenSingle.Singles(g, cs, BoxCells(BoxId(ps[i].cell))), ps[j].digit))
  {
    NonetsDisjoint();
    PlacementBoxes(g, cs, ps);
    KeyedOrder(g, cs, BoxCells, ps, BoxId);
  }

  /** Every placement found nonet by nonet lies in the nonet its cell belongs to. */
  lemma PlacementBoxes(g: Grid, cs: CandidateGrid, ps: seq<Placement>)
    requires IsGrid(g) && IsCandidateGrid(cs) && ps == FindInElements(g, cs, BoxCells)
    ensures forall p :: p in ps ==> 0 <= BoxId(p.cell) < 9 && p.cell in BoxCells(BoxId(p.cell))
  {
    forall p | p in ps ensures 0 <= BoxId(p.cell) < 9 && p.cell in BoxCells(BoxId(p.cell)) {
      var i :| 0 <= i < 9 && p.cell in BoxCells(i) && InRange(p.cell) &&
        p.digit in CandsAt(cs, p.cell) && |Holders(g, cs, BoxCells(i), p.digit)| == 1;
      BoxCellsHaveBoxId(i);
    }
  }

  /** The nine nonets are disjoint lists without repeats. */
  lemma NonetsDisjoint()
    ensures Disjoint(BoxCells)
    ensures forall i :: 0 <= i < 9 ==> NoDups(BoxCells(i))
  {
    forall i | 0 <= i < 9 ensures NoDups(BoxCells(i)) && forall c :: c in BoxCells(i) <==> InRange(c) && BoxId(c) == i {
      RowMajorNoDups(BoxCells(i));
      BoxCellsHaveBoxId(i);
    }
  }
}
