/**
  What the deduction strategies rely on. A house is one of the 27 rows,
  columns and boxes. A candidate grid is measured against a solution by
  three facts that the solver keeps true:
  - `Keeps`: every unset cell still lists the digit the solution puts there;
  - `Bounded`: candidates are digits 1..9, and a set cell lists at most its
    own digit;
  - `Pruned`: no unset cell lists a digit already placed among its peers.
*/
module Deduction {
  import opened SeqUtil
  import opened CoreTypes
  import opened Board
  import opened Locations
  import opened Cells
  import opened Peers
  import opened Validation

  /** `cells` is a row, a column or a box, listed as `Cells` lists it. */
  predicate IsHouse(cells: seq<Cell>) {
    exists i :: 0 <= i < 9 && (cells == RowCells(i) || cells == ColumnCells(i) || cells == BoxCells(i))
  }

  /** A house is nine distinct cells on the board, any two of them peers. */
  lemma HouseFacts(cells: seq<Cell>)
    requires IsHouse(cells)
    ensures |cells| == 9 && AllInRange(cells) && RowMajor(cells) && NoDups(cells)
    ensures forall a, b :: a in cells && b in cells && a != b ==> IsPeer(a, b)
  {
    var i :| 0 <= i < 9 && (cells == RowCells(i) || cells == ColumnCells(i) || cells == BoxCells(i));
    HouseCellsInRange(i);
    BoxCellsHaveBoxId(i);
    RowMajorNoDups(cells);
  }

  /** Two different cells of a house are peers. */
  lemma HousePeer(cells: seq<Cell>, a: Cell, b: Cell)
    requires IsHouse(cells) && a in cells && b in cells && a != b
    ensures IsPeer(a, b)
  {
    HouseFacts(cells);
  }

  /** A solved grid places every digit 1..9 somewhere in every house. */
  lemma HouseHoldsDigit(s: Grid, cells: seq<Cell>, d: int) returns (e: Cell)
    requires IsGrid(s) && IsSolved(s) && IsHouse(cells) && 1 <= d <= 9
    ensures e in cells && At(s, e) == d
  {
    var i :| 0 <= i < 9 && (cells == RowCells(i) || cells == ColumnCells(i) || cells == BoxCells(i));
    HouseCellsInRange(i);
    assert d in OneToNine;
    assert ValueSet(s, cells) == OneToNine;
    ValueSetMember(s, cells, d);
    e :| e in cells && At(s, e) == d;
  }

  /** Every unset cell of `g` lists the digit the completion `s` puts there. */
  ghost predicate Keeps(g: Grid, cs: CandidateGrid, s: Grid) {
    IsGrid(g) && IsCandidateGrid(cs) && Completes(s, g) &&
    forall c :: InRange(c) && At(g, c) == 0 ==> At(s, c) in CandsAt(cs, c)
  }

  /** Candidates are digits, and a set cell lists nothing but its own digit. */
  ghost predicate Bounded(g: Grid, cs: CandidateGrid)
    requires IsGrid(g) && IsCandidateGrid(cs)
  {
    forall c :: InRange(c) ==> CandsAt(cs, c) <= OneToNine && (At(g, c) != 0 ==> CandsAt(cs, c) <= {At(g, c)})
  }

  /** No unset cell lists a digit that one of its peers already holds. */
  ghost predicate Pruned(g: Grid, cs: CandidateGrid)
    requires IsGrid(g) && IsCandidateGrid(cs)
  {
    forall c, d :: IsPeer(c, d) && At(g, c) == 0 && At(g, d) != 0 ==> At(g, d) !in CandsAt(cs, c)
  }

  /** The unset cells of the list whose candidates include `d`, in list order. */
  function Holders(g: Grid, cs: CandidateGrid, cells: seq<Cell>, d: int): (hs: seq<Cell>)
    requires IsGrid(g) && IsCandidateGrid(cs) && AllInRange(cells)
    ensures forall c :: c in hs <==> c in cells && At(g, c) == 0 && d in CandsAt(cs, c)
    ensures RowMajor(cells) ==> RowMajor(hs)
    ensures AllInRange(hs)
    decreases |cells|
  {
    if cells == [] then []
    else
      var c := cells[0];
      var rest := Holders(g, cs, cells[1..], d);
      RowMajorHead(cells);
      assert RowMajor(cells) ==> RowMajor([c] + rest) by {
        if RowMajor(cells) {
          RowMajorCons(c, rest);
        }
      }
      assert AllInRange(rest) ==> forall k :: 0 <= k < |rest| ==> InRange(rest[k]);
      (if At(g, c) == 0 && d in CandsAt(cs, c) then [c] else []) + rest
  }

  /**
    A cell of a house listing a digit that no other unset cell of the house
    lists must take that digit in every completion the candidates keep.
    (A set cell lists only its own digit; for an unset cell, the solution
    puts the digit somewhere in the house, not on a set cell because the
    candidates are pruned, so on an unset cell listing it: this one.)
  */
  lemma UniqueHolderForced(g: Grid, cs: CandidateGrid, cells: seq<Cell>, s: Grid, c: Cell, d: int)
    requires Keeps(g, cs, s) && Bounded(g, cs) && Pruned(g, cs) && IsHouse(cells)
    requires c in cells && d in CandsAt(cs, c)
    requires |Holders(g, cs, cells, d)| <= 1
    ensures At(s, c) == d
  {
    HouseFacts(cells);
    if At(g, c) != 0 {
      assert d in {At(g, c)};
    } else {
      assert d in OneToNine;
      var e := HouseHoldsDigit(s, cells, d);
      HolderUnset(g, cs, cells, s, c, d, e);
      ShortMembers(Holders(g, cs, cells, d), c, e);
    }
  }

  /**
    Where a completion puts a digit that an unset cell of the same house
    lists, the cell is unset too: pruning removed the digit from the
    house otherwise.
  */
  lemma HolderUnset(g: Grid, cs: CandidateGrid, cells: seq<Cell>, s: Grid, c: Cell, d: int, e: Cell)
    requires IsGrid(g) && IsGrid(s) && IsCandidateGrid(cs) && Pruned(g, cs) && IsHouse(cells)
    requires forall x :: InRange(x) && At(g, x) != 0 ==> At(s, x) == At(g, x)
    requires c in cells && e in cells && InRange(c) && InRange(e)
    requires At(g, c) == 0 && d in CandsAt(cs, c) && At(s, e) == d
    ensures At(g, e) == 0
  {
    if e != c {
      HousePeer(cells, c, e);
    }
  }

  /**
    The candidates (c, d) for the digits d of `ds`, in order, that lie in
    `pair` when `inside` holds and outside it otherwise.
  */
  function CellCandidates(c: Cell, ds: seq<int>, pair: set<int>, inside: bool): (xs: seq<Candidate>)
    ensures forall x :: x in xs <==> x.cell == c && x.digit in ds && (x.digit in pair <==> inside)
    decreases |ds|
  {
    if ds == [] then []
    else
      assert forall x :: x in ds <==> x == ds[0] || x in ds[1..];
      (if (ds[0] in pair) == inside then [Candidate(c, ds[0])] else []) + CellCandidates(c, ds[1..], pair, inside)
  }

  /** Digits taken in ascending order give candidates in ascending order. */
  lemma {:induction false} CellCandidatesOrder(c: Cell, ds: seq<int>, pair: set<int>, inside: bool)
    requires forall i, j :: 0 <= i < j < |ds| ==> ds[i] < ds[j]
    ensures CellMajor(CellCandidates(c, ds, pair, inside))
    decreases |ds|
  {
    if ds != [] {
      CellCandidatesOrder(c, ds[1..], pair, inside);
      if (ds[0] in pair) == inside {
        FirstDigitLeast(c, ds, pair, inside);
        CellMajorPrepend(Candidate(c, ds[0]), CellCandidates(c, ds[1..], pair, inside));
      }
    }
  }

  lemma FirstDigitLeast(c: Cell, ds: seq<int>, pair: set<int>, inside: bool)
    requires ds != [] && forall i, j :: 0 <= i < j < |ds| ==> ds[i] < ds[j]
    ensures forall x :: x in CellCandidates(c, ds[1..], pair, inside) ==> x.cell == c && ds[0] < x.digit
  {
    forall x | x in CellCandidates(c, ds[1..], pair, inside) ensures x.cell == c && ds[0] < x.digit {
      var j :| 0 <= j < |ds[1..]| && ds[1..][j] == x.digit;
      assert ds[j + 1] == x.digit;
    }
  }

  lemma CellMajorPrepend(x: Candidate, rest: seq<Candidate>)
    requires CellMajor(rest)
    requires forall y :: y in rest ==> y.cell == x.cell && x.digit < y.digit
    ensures CellMajor([x] + rest)
  {
    var xs := [x] + rest;
    forall i, j | 0 <= i < j < |xs|
      ensures Before(xs[i].cell, xs[j].cell) || (xs[i].cell == xs[j].cell && xs[i].digit < xs[j].digit)
    {
      assert xs[j] == rest[j - 1];
      if i > 0 {
        assert xs[i] == rest[i - 1];
      } else {
        assert rest[j - 1] in rest;
      }
    }
  }

  /** One cell's candidates, ascending, followed by candidates of later cells stay cell-major. */
  lemma CellMajorCons(c: Cell, head: seq<Candidate>, rest: seq<Candidate>)
    requires CellMajor(head) && CellMajor(rest)
    requires forall x :: x in head ==> x.cell == c
    requires forall x :: x in rest ==> Before(c, x.cell)
    ensures CellMajor(head + rest)
  {
    var xs := head + rest;
    forall i, j | 0 <= i < j < |xs|
      ensures Before(xs[i].cell, xs[j].cell) || (xs[i].cell == xs[j].cell && xs[i].digit < xs[j].digit)
    {
      if i < |head| && j >= |head| {
        assert xs[i] in head && xs[j] == rest[j - |head|] && xs[j] in rest;
      } else if j < |head| {
        assert xs[i] == head[i] && xs[j] == head[j];
      } else {
        assert xs[i] == rest[i - |head|] && xs[j] == rest[j - |head|];
      }
    }
  }

  /** No non-empty list occurs twice in `lists`. */
  predicate DistinctNonEmpty(lists: seq<seq<Candidate>>) {
    forall k, l :: 0 <= k < l < |lists| && lists[k] != [] ==> lists[k] != lists[l]
  }

  /**
    The eliminations built from `lists`, one per list, with those that
    remove nothing dropped: the final filter of both pair strategies. When
    no non-empty list repeats, they come in the order of their lists, so
    none is listed twice.
  */
  function NonEmpty(lists: seq<seq<Candidate>>): (es: seq<Elimination>)
    ensures forall e :: e in es <==> e.candidates != [] && e.candidates in lists
    ensures |es| <= |lists|
    ensures DistinctNonEmpty(lists) ==>
      forall i, j :: 0 <= i < j < |es| ==> IndexOf(lists, es[i].candidates) < IndexOf(lists, es[j].candidates)
    ensures DistinctNonEmpty(lists) ==> NoDups(es)
    decreases |lists|
  {
    if lists == [] then []
    else
      var tail := lists[1..];
      assert forall xs :: xs in lists <==> xs == lists[0] || xs in tail;
      var head := if lists[0] != [] then [Elimination(lists[0])] else [];
      var rest := NonEmpty(tail);
      assert DistinctNonEmpty(lists) ==>
        forall i, j :: 0 <= i < j < |head + rest| ==>
          IndexOf(lists, (head + rest)[i].candidates) < IndexOf(lists, (head + rest)[j].candidates) by {
        if DistinctNonEmpty(lists) {
          NonEmptyStep(lists, head, rest);
        }
      }
      head + rest
  }

  /** The elimination of the first list, when kept, goes before those of the later lists. */
  lemma NonEmptyStep(lists: seq<seq<Candidate>>, head: seq<Elimination>, rest: seq<Elimination>)
    requires lists != [] && DistinctNonEmpty(lists)
    requires head == [] || head == [Elimination(lists[0])]
    requires forall e :: e in rest ==> e.candidates != [] && e.candidates in lists[1..]
    requires forall i, j :: 0 <= i < j < |rest| ==> IndexOf(lists[1..], rest[i].candidates) < IndexOf(lists[1..], rest[j].candidates)
    ensures forall i, j :: 0 <= i < j < |head + rest| ==>
      IndexOf(lists, (head + rest)[i].candidates) < IndexOf(lists, (head + rest)[j].candidates)
  {
    forall i, j | 0 <= i < j < |head + rest|
      ensures IndexOf(lists, (head + rest)[i].candidates) < IndexOf(lists, (head + rest)[j].candidates)
    {
      NonEmptyPair(lists, head, rest, i, j);
    }
  }

  /** `NonEmptyStep` for one pair of positions. */
  lemma NonEmptyPair(lists: seq<seq<Candidate>>, head: seq<Elimination>, rest: seq<Elimination>, i: int, j: int)
    requires lists != [] && DistinctNonEmpty(lists)
    requires head == [] || head == [Elimination(lists[0])]
    requires forall e :: e in rest ==> e.candidates != [] && e.candidates in lists[1..]
    requires forall i, j :: 0 <= i < j < |rest| ==> IndexOf(lists[1..], rest[i].candidates) < IndexOf(lists[1..], rest[j].candidates)
    requires 0 <= i < j < |head + rest|
    ensures IndexOf(lists, (head + rest)[i].candidates) < IndexOf(lists, (head + rest)[j].candidates)
  {
    AppendIndex(head, rest, j);
    ShiftedIndex(lists, rest[j - |head|].candidates);
    if i >= |head| {
      AppendIndex(head, rest, i);
      ShiftedIndex(lists, rest[i - |head|].candidates);
    } else {
      assert (head + rest)[i] == Elimination(lists[0]);
    }
  }

  /** A non-empty list found after the first position is not the first list. */
  lemma ShiftedIndex(lists: seq<seq<Candidate>>, xs: seq<Candidate>)
    requires lists != [] && DistinctNonEmpty(lists) && xs != [] && xs in lists[1..]
    ensures IndexOf(lists, xs) == 1 + IndexOf(lists[1..], xs)
  {
    var m :| 0 <= m < |lists[1..]| && lists[1..][m] == xs;
    assert lists[m + 1] == xs;
    assert lists[0] != xs;
  }

  /** Under `DistinctNonEmpty`, a non-empty list occurs only at its first position. */
  lemma FirstPosition(lists: seq<seq<Candidate>>, k: int)
    requires DistinctNonEmpty(lists) && 0 <= k < |lists| && lists[k] != []
    ensures IndexOf(lists, lists[k]) == k
  {
  }

  /** Concatenated cell lists on the board stay on the board. */
  lemma AllInRangeAppend(a: seq<Cell>, b: seq<Cell>)
    requires AllInRange(a) && AllInRange(b)
    ensures AllInRange(a + b)
  {
    forall i | 0 <= i < |a + b| ensures InRange((a + b)[i]) {
      if i >= |a| { assert (a + b)[i] == b[i - |a|]; }
    }
  }

  /** A later element of a row-major list comes after its head. */
  lemma RowMajorTail(cells: seq<Cell>, d: Cell)
    requires RowMajor(cells) && |cells| > 0 && d in cells[1..]
    ensures Before(cells[0], d)
  {
    var j :| 0 <= j < |cells[1..]| && cells[1..][j] == d;
    assert cells[j + 1] == d;
  }
}
