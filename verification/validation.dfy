/**
  Checking a grid, listing its set and unset cells, and the depth-first
  search over completions of a partial grid.
*/
module Validation {
  import opened SeqUtil
  import opened CoreTypes
  import opened Board
  import opened Locations
  import opened Cells
  import opened Peers
  import opened Digits

  /**
    Every row, every column and every 3x3 box holds exactly the digits 1..9.
    Box b is the block with corner (b div 3 * 3, b mod 3 * 3), so b = 0..8
    runs over the corners (i, j) with i, j in {0, 3, 6}.
  */
  predicate IsSolved(g: Grid)
    requires IsGrid(g)
  {
    (forall r :: 0 <= r < 9 ==> ValueSet(g, RowCells(r)) == OneToNine) &&
    (forall k :: 0 <= k < 9 ==> ValueSet(g, ColumnCells(k)) == OneToNine) &&
    (forall b :: 0 <= b < 9 ==> ValueSet(g, BoxCells(b)) == OneToNine)
  }

  /** No cell is unset. */
  ghost predicate Filled(g: Grid)
    requires IsGrid(g)
  {
    forall c :: InRange(c) ==> At(g, c) != 0
  }

  /** No two peers hold the same value. */
  ghost predicate NoConflicts(g: Grid)
    requires IsGrid(g)
  {
    forall c, d :: IsPeer(c, d) ==> At(g, c) != At(g, d)
  }

  /** The nine cells of a house hold pairwise different, non-zero values. */
  predicate HouseValid(g: Grid, cells: seq<Cell>)
    requires IsGrid(g) && AllInRange(cells)
  {
    (forall i :: 0 <= i < |cells| ==> At(g, cells[i]) != 0) &&
    (forall i, j :: 0 <= i < j < |cells| ==> At(g, cells[i]) != At(g, cells[j]))
  }

  lemma OneToNineCard()
    ensures |OneToNine| == 9
  {
    assert OneToNine == {1, 2, 3, 4, 5, 6, 7, 8, 9};
  }

  /** A subset as large as a finite set is the whole set. */
  lemma {:induction false} SubsetSameCard(a: set<int>, b: set<int>)
    requires a <= b && |a| == |b|
    ensures a == b
  {
    if a != b {
      DiffEmpty(a, b);
      NonEmptyHasElement(b - a);
      var x :| x in b - a;
      assert a <= b - {x};
      SubsetCard(a, b - {x});
    }
  }

  lemma DiffEmpty(a: set<int>, b: set<int>)
    ensures b - a == {} ==> b <= a
  {
    if b - a == {} {
      forall x | x in b ensures x in a {
        assert x !in b - a;
      }
    }
  }

  lemma {:induction false} SubsetCard(a: set<int>, b: set<int>)
    requires a <= b
    ensures |a| <= |b|
    decreases |b|
  {
    if a != {} {
      NonEmptyHasElement(a);
      var x :| x in a;
      SubsetCard(a - {x}, b - {x});
    }
  }

  /**
    Nine cells hold the digits 1..9 iff their values are non-zero and
    pairwise different (pigeonhole).
  */
  lemma HouseComplete(g: Grid, cells: seq<Cell>)
    requires IsGrid(g) && AllInRange(cells) && |cells| == 9
    ensures ValueSet(g, cells) == OneToNine <==> HouseValid(g, cells)
  {
    var vs := Values(g, cells);
    OneToNineCard();
    if ValueSet(g, cells) == OneToNine {
      forall i | 0 <= i < 9 ensures At(g, cells[i]) != 0 {
        assert vs[i] in ValueSet(g, cells);
      }
      forall i, j | 0 <= i < j < 9 ensures At(g, cells[i]) != At(g, cells[j]) {
        if vs[i] == vs[j] {
          CardElemsDup(vs, i, j);
        }
      }
    }
    if HouseValid(g, cells) {
      assert NoDups(vs);
      CardElemsNoDups(vs);
      assert ValueSet(g, cells) <= OneToNine by {
        forall v | v in ValueSet(g, cells) ensures v in OneToNine {
          var i :| 0 <= i < 9 && vs[i] == v;
        }
      }
      SubsetSameCard(ValueSet(g, cells), OneToNine);
    }
  }

  /** A grid is solved iff it is filled and no two peers share a value. */
  lemma SolvedIff(g: Grid)
    requires IsGrid(g)
    ensures IsSolved(g) <==> Filled(g) && NoConflicts(g)
  {
    if IsSolved(g) {
      SolvedFilled(g);
    }
    if Filled(g) && NoConflicts(g) {
      FilledSolved(g);
    }
  }

  /** Each house of a solved grid is set and holds no value twice. */
  lemma SolvedFilled(g: Grid)
    requires IsGrid(g) && IsSolved(g)
    ensures Filled(g) && NoConflicts(g)
  {
    forall c | InRange(c) ensures At(g, c) != 0 {
      HouseCellsInRange(c.row);
      HouseComplete(g, RowCells(c.row));
      assert RowCells(c.row)[c.column] == c;
    }
    forall c, d | IsPeer(c, d) ensures At(g, c) != At(g, d) {
      SolvedPeersDiffer(g, c, d);
    }
  }

  /** A filled grid without conflicting peers holds 1..9 in every house. */
  lemma FilledSolved(g: Grid)
    requires IsGrid(g) && Filled(g) && NoConflicts(g)
    ensures IsSolved(g)
  {
    forall i | 0 <= i < 9
      ensures AllInRange(RowCells(i)) && AllInRange(ColumnCells(i)) && AllInRange(BoxCells(i))
      ensures ValueSet(g, RowCells(i)) == OneToNine
      ensures ValueSet(g, ColumnCells(i)) == OneToNine
      ensures ValueSet(g, BoxCells(i)) == OneToNine
    {
      HouseCellsInRange(i);
      HouseValidFromPeers(g, RowCells(i));
      HouseComplete(g, RowCells(i));
      HouseValidFromPeers(g, ColumnCells(i));
      HouseComplete(g, ColumnCells(i));
      BoxCellsHaveBoxId(i);
      HouseValidFromPeers(g, BoxCells(i));
      HouseComplete(g, BoxCells(i));
    }
  }

  /** Two different cells of one row, column or box are peers. */
  lemma HouseValidFromPeers(g: Grid, cells: seq<Cell>)
    requires IsGrid(g) && AllInRange(cells) && RowMajor(cells) && Filled(g) && NoConflicts(g)
    requires forall i, j :: 0 <= i < j < |cells| ==>
      cells[i].row == cells[j].row || cells[i].column == cells[j].column || BoxId(cells[i]) == BoxId(cells[j])
    ensures HouseValid(g, cells)
  {
    forall i, j | 0 <= i < j < |cells| ensures At(g, cells[i]) != At(g, cells[j]) {
      assert IsPeer(cells[i], cells[j]);
    }
  }

  /** In a solved grid, two peers differ. */
  lemma SolvedPeersDiffer(g: Grid, c: Cell, d: Cell)
    requires IsGrid(g) && IsSolved(g) && IsPeer(c, d)
    ensures At(g, c) != At(g, d)
  {
    if d.row == c.row {
      HouseComplete(g, RowCells(c.row));
      assert RowCells(c.row)[c.column] == c && RowCells(c.row)[d.column] == d;
    } else if d.column == c.column {
      HouseComplete(g, ColumnCells(c.column));
      assert ColumnCells(c.column)[c.row] == c && ColumnCells(c.column)[d.row] == d;
    } else {
      var b := BoxId(c);
      BoxCellsHaveBoxId(b);
      HouseComplete(g, BoxCells(b));
      var i :| 0 <= i < 9 && BoxCells(b)[i] == c;
      var j :| 0 <= j < 9 && BoxCells(b)[j] == d;
      if i > j {
        assert At(g, BoxCells(b)[j]) != At(g, BoxCells(b)[i]);
      }
    }
  }

  /** On a solved grid the peers of a cell hold every digit but its own. */
  lemma SolvedPeerDigits(g: Grid, c: Cell)
    requires IsGrid(g) && IsSolved(g) && InRange(c)
    ensures PeerDigits(g, c) == OneToNine - {At(g, c)}
  {
    var ds := PeerDigits(g, c);
    forall v | v in OneToNine - {At(g, c)} ensures v in ds {
      SolvedPeerDigit(g, c, v);
    }
  }

  lemma SolvedPeerDigit(g: Grid, c: Cell, v: int)
    requires IsGrid(g) && IsSolved(g) && InRange(c) && 1 <= v <= 9 && v != At(g, c)
    ensures v in PeerDigits(g, c)
  {
    assert v in ValueSet(g, RowCells(c.row));
    HouseCellsInRange(c.row);
    ValueSetMember(g, RowCells(c.row), v);
    var d :| d in RowCells(c.row) && At(g, d) == v;
    assert IsPeer(c, d);
  }

  /** The cells of the list holding 0, in list order. */
  function ZeroCellsIn(g: Grid, cells: seq<Cell>): (r: seq<Cell>)
    requires IsGrid(g) && AllInRange(cells)
    ensures forall c :: c in r <==> c in cells && At(g, c) == 0
    ensures |r| == ZerosIn(g, cells)
    ensures RowMajor(cells) ==> RowMajor(r)
  {
    if cells == [] then []
    else
      var rest := ZeroCellsIn(g, cells[1..]);
      RowMajorHead(cells);
      assert RowMajor(cells) ==> RowMajor([cells[0]] + rest) by {
        if RowMajor(cells) {
          RowMajorCons(cells[0], rest);
        }
      }
      (if At(g, cells[0]) == 0 then [cells[0]] else []) + rest
  }

  /** The cells of the list holding a digit, in list order. */
  function NonZeroCellsIn(g: Grid, cells: seq<Cell>): (r: seq<Cell>)
    requires IsGrid(g) && AllInRange(cells)
    ensures forall c :: c in r <==> c in cells && At(g, c) > 0
    ensures |r| + ZerosIn(g, cells) == |cells|
    ensures RowMajor(cells) ==> RowMajor(r)
  {
    if cells == [] then []
    else
      var rest := NonZeroCellsIn(g, cells[1..]);
      RowMajorHead(cells);
      assert RowMajor(cells) ==> RowMajor([cells[0]] + rest) by {
        if RowMajor(cells) {
          RowMajorCons(cells[0], rest);
        }
      }
      (if At(g, cells[0]) > 0 then [cells[0]] else []) + rest
  }

  /** The cells holding 0, row-major (`np.where(grid == 0)`). */
  function UnsolvedCells(g: Grid): (r: seq<Cell>)
    requires IsGrid(g)
    ensures forall c :: c in r <==> InRange(c) && At(g, c) == 0
    ensures RowMajor(r)
    ensures |r| == ZeroCount(g)
  {
    ZeroCellsIn(g, AllCells())
  }

  /** The cells holding a digit, row-major (`np.where(grid > 0)`). */
  function SolvedCells(g: Grid): (r: seq<Cell>)
    requires IsGrid(g)
    ensures forall c :: c in r <==> InRange(c) && At(g, c) > 0
    ensures RowMajor(r)
    ensures |r| == 81 - ZeroCount(g)
  {
    NonZeroCellsIn(g, AllCells())
  }

  /** Every cell is in exactly one of the two lists, and together they have 81 cells. */
  lemma CellsPartition(g: Grid)
    requires IsGrid(g)
    ensures forall c :: InRange(c) ==> (c in UnsolvedCells(g) <==> c !in SolvedCells(g))
    ensures |UnsolvedCells(g)| + |SolvedCells(g)| == 81
  {
  }

  /** A value a cell can be set to. */
  type Digit = v: int | 1 <= v <= 9 witness 1

  /** `s` is a solved grid that keeps every digit already set in `g`. */
  ghost predicate Completes(s: Grid, g: Grid) {
    IsGrid(s) && IsGrid(g) && IsSolved(s) &&
    forall c :: InRange(c) && At(g, c) != 0 ==> At(s, c) == At(g, c)
  }

  /** `s` completes `g`, and no other grid does. */
  ghost predicate OnlyCompletion(s: Grid, g: Grid) {
    Completes(s, g) && forall t :: Completes(t, g) ==> t == s
  }

  /**
    The grids yielded by the depth-first search, in order: fill the first
    unset cell (row-major) with each value not among its peers' digits,
    in ascending order, and search each copy; a grid without unset cells
    is yielded when it is solved.
  */
  function BruteForceSolutions(g: Grid): (r: seq<Grid>)
    requires IsGrid(g)
    ensures forall s :: s in r ==> Completes(s, g)
    ensures NoDups(r)
    decreases ZeroCount(g), 1, 0
  {
    var unsolved := UnsolvedCells(g);
    if unsolved != [] then
      var cell := unsolved[0];
      Branch(g, cell, SearchValues(g, cell))
    else if IsSolved(g) then
      [g]
    else
      []
  }

  /** The values the search tries at a cell: the digits none of its peers holds, ascending. */
  function SearchValues(g: Grid, cell: Cell): (vs: seq<Digit>)
    requires IsGrid(g) && InRange(cell)
    ensures forall v :: v in vs <==> 1 <= v <= 9 && v !in PeerDigits(g, cell)
    ensures forall i, j :: 0 <= i < j < |vs| ==> vs[i] < vs[j]
    ensures NoDups(vs)
  {
    var free := OneToNine - PeerDigits(g, cell);
    AscendingDigits(free);
    Ascending(free)
  }

  /** A set of digits listed in ascending order holds digits only. */
  lemma AscendingDigits(s: set<int>)
    requires s <= OneToNine
    ensures forall i :: 0 <= i < |Ascending(s)| ==> 1 <= Ascending(s)[i] <= 9
  {
    var r := Ascending(s);
    forall i | 0 <= i < |r| ensures 1 <= r[i] <= 9 {
      assert r[i] in r;
    }
  }

  /** The searches of `g` with `cell` set to each of `vs`, concatenated. */
  function Branch(g: Grid, cell: Cell, vs: seq<Digit>): (r: seq<Grid>)
    requires IsGrid(g) && InRange(cell) && At(g, cell) == 0
    requires NoDups(vs)
    ensures forall s :: s in r ==> Completes(s, g) && At(s, cell) in vs
    ensures NoDups(r)
    decreases ZeroCount(g), 0, |vs|
  {
    if vs == [] then []
    else
      PlaceZeroCount(g, cell, vs[0]);
      var first := BruteForceSolutions(Place(g, cell, vs[0]));
      var rest := Branch(g, cell, vs[1..]);
      assert vs[0] !in vs[1..];
      assert NoDups(vs[1..]);
      NoDupsAppend(first, rest);
      first + rest
  }

  /** Each value in `vs` contributes all searches of `g` with `cell` set to it. */
  lemma {:induction false} BranchContains(g: Grid, cell: Cell, vs: seq<Digit>, k: int, s: Grid)
    requires IsGrid(g) && InRange(cell) && At(g, cell) == 0
    requires NoDups(vs) && 0 <= k < |vs|
    requires s in BruteForceSolutions(Place(g, cell, vs[k]))
    ensures s in Branch(g, cell, vs)
    decreases k
  {
    BranchUnfold(g, cell, vs);
    if k > 0 {
      var later := vs[1..];
      assert later[k - 1] == vs[k];
      BranchContains(g, cell, later, k - 1, s);
      assert s in Branch(g, cell, later);
    }
  }

  /** One step of `Branch`: the searches for the first value, then the rest. */
  lemma BranchUnfold(g: Grid, cell: Cell, vs: seq<Digit>)
    requires IsGrid(g) && InRange(cell) && At(g, cell) == 0
    requires NoDups(vs) && vs != []
    ensures NoDups(vs[1..]) && IsGrid(Place(g, cell, vs[0]))
    ensures Branch(g, cell, vs) == BruteForceSolutions(Place(g, cell, vs[0])) + Branch(g, cell, vs[1..])
  {
    assert vs[0] !in vs[1..];
  }

  /** A value taken by a completion is never among the cell's peer digits. */
  lemma CompletionAvoidsPeerDigits(g: Grid, s: Grid, cell: Cell)
    requires Completes(s, g) && InRange(cell)
    ensures 1 <= At(s, cell) <= 9
    ensures At(s, cell) !in PeerDigits(g, cell)
  {
    SolvedIff(s);
    forall d | IsPeer(cell, d) && At(g, d) != 0 ensures At(g, d) != At(s, cell) {
      assert At(s, d) == At(g, d);
    }
  }

  /** The search finds every completion of the grid. */
  lemma {:induction false} SearchComplete(g: Grid, s: Grid)
    requires Completes(s, g)
    ensures s in BruteForceSolutions(g)
    decreases ZeroCount(g)
  {
    var unsolved := UnsolvedCells(g);
    if unsolved == [] {
      SearchBase(g, s);
    } else {
      var cell := unsolved[0];
      assert cell in unsolved;
      CompletionAvoidsPeerDigits(g, s, cell);
      CompletesPlace(g, s, cell);
      PlaceZeroCount(g, cell, At(s, cell));
      SearchComplete(Place(g, cell, At(s, cell)), s);
      SearchStep(g, s, cell);
    }
  }

  /** A grid without unset cells is its only completion, and it is yielded. */
  lemma SearchBase(g: Grid, s: Grid)
    requires Completes(s, g) && UnsolvedCells(g) == []
    ensures s in BruteForceSolutions(g)
  {
    forall c | InRange(c) ensures At(s, c) == At(g, c) {
      assert c !in UnsolvedCells(g);
    }
    GridExt(s, g);
  }

  /** A completion of `g` completes `g` with one more of its own values written in. */
  lemma CompletesPlace(g: Grid, s: Grid, cell: Cell)
    requires Completes(s, g) && InRange(cell) && 1 <= At(s, cell) <= 9
    ensures Completes(s, Place(g, cell, At(s, cell)))
  {
  }

  /** One step of `SearchComplete`: the branch for the completion's value holds it. */
  lemma SearchStep(g: Grid, s: Grid, cell: Cell)
    requires Completes(s, g) && InRange(cell) && At(g, cell) == 0
    requires UnsolvedCells(g) != [] && cell == UnsolvedCells(g)[0]
    requires 1 <= At(s, cell) <= 9 && At(s, cell) !in PeerDigits(g, cell)
    requires s in BruteForceSolutions(Place(g, cell, At(s, cell)))
    ensures s in BruteForceSolutions(g)
  {
    var vs := SearchValues(g, cell);
    assert At(s, cell) in vs;
    var k :| 0 <= k < |vs| && vs[k] == At(s, cell);
    BranchContains(g, cell, vs, k, s);
  }

  /** The search yields exactly the completions of the grid, each once. */
  lemma SearchExact(g: Grid)
    requires IsGrid(g)
    ensures forall s :: s in BruteForceSolutions(g) <==> Completes(s, g)
    ensures NoDups(BruteForceSolutions(g))
  {
    forall s | Completes(s, g) ensures s in BruteForceSolutions(g) {
      SearchComplete(g, s);
    }
  }

  /**
    `a` and `b` agree on every cell before `c` in row-major order, and
    `a` holds the smaller value at `c`.
  */
  ghost predicate LexLessAt(a: Grid, b: Grid, c: Cell)
    requires IsGrid(a) && IsGrid(b)
  {
    InRange(c) && At(a, c) < At(b, c) &&
    forall d :: InRange(d) && Before(d, c) ==> At(a, d) == At(b, d)
  }

  /** Row-major lexicographic order on grids: at the first cell where they differ, `a` is smaller. */
  ghost predicate LexLess(a: Grid, b: Grid) {
    IsGrid(a) && IsGrid(b) && exists c :: LexLessAt(a, b, c)
  }

  /** Grids in strictly increasing row-major lexicographic order. */
  ghost predicate LexSorted(gs: seq<Grid>) {
    forall i, j :: 0 <= i < j < |gs| ==> LexLess(gs[i], gs[j])
  }

  /** No grid comes before itself, and of two grids at most one comes first. */
  lemma LexLessAsymmetric(a: Grid, b: Grid)
    ensures !LexLess(a, a)
    ensures LexLess(a, b) ==> !LexLess(b, a)
  {
    if LexLess(a, b) {
      var c :| LexLessAt(a, b, c);
      forall e ensures !LexLessAt(b, a, e) {
        if Before(c, e) {
          assert At(b, c) != At(a, c);
        }
      }
    }
  }

  /** Two grids that differ somewhere are ordered one way or the other. */
  lemma {:induction false} LexLessTotal(a: Grid, b: Grid, c: Cell)
    requires IsGrid(a) && IsGrid(b) && InRange(c) && At(a, c) != At(b, c)
    ensures LexLess(a, b) || LexLess(b, a)
    decreases c.row * 9 + c.column
  {
    if forall d :: InRange(d) && Before(d, c) ==> At(a, d) == At(b, d) {
      if At(a, c) < At(b, c) {
        assert LexLessAt(a, b, c);
      } else {
        assert LexLessAt(b, a, c);
      }
    } else {
      var d :| InRange(d) && Before(d, c) && At(a, d) != At(b, d);
      LexLessTotal(a, b, d);
    }
  }

  /** The cells before the first unset cell in row-major order are all set. */
  lemma FirstUnsetCell(g: Grid)
    requires IsGrid(g) && UnsolvedCells(g) != []
    ensures forall d :: InRange(d) && Before(d, UnsolvedCells(g)[0]) ==> At(g, d) != 0
  {
    var unsolved := UnsolvedCells(g);
    forall d | InRange(d) && At(g, d) == 0 ensures d == unsolved[0] || Before(unsolved[0], d) {
      var k :| 0 <= k < |unsolved| && unsolved[k] == d;
      if k > 0 {
        assert Before(unsolved[0], unsolved[k]);
      }
    }
  }

  /** Sorted lists, each grid of the first before each of the second, concatenate to a sorted list. */
  lemma LexSortedAppend(a: seq<Grid>, b: seq<Grid>)
    requires LexSorted(a) && LexSorted(b)
    requires forall s, t :: s in a && t in b ==> LexLess(s, t)
    ensures LexSorted(a + b)
  {
    var ab := a + b;
    forall i, j | 0 <= i < j < |ab| ensures LexLess(ab[i], ab[j]) {
      if j < |a| {
        assert ab[i] == a[i] && ab[j] == a[j];
      } else if i < |a| {
        assert ab[i] == a[i] && ab[j] == b[j - |a|] && a[i] in a && b[j - |a|] in b;
      } else {
        assert ab[i] == b[i - |a|] && ab[j] == b[j - |a|];
      }
    }
  }

  /**
    The search yields its grids in strictly increasing row-major
    lexicographic order: it fills the first unset cell, after which only
    set cells come, with values in ascending order.
  */
  lemma {:induction false} SearchOrdered(g: Grid)
    requires IsGrid(g)
    ensures LexSorted(BruteForceSolutions(g))
    decreases ZeroCount(g), 1, 0
  {
    var unsolved := UnsolvedCells(g);
    if unsolved != [] {
      var cell := unsolved[0];
      assert cell in unsolved;
      FirstUnsetCell(g);
      BranchOrdered(g, cell, SearchValues(g, cell));
    }
  }

  /**
    The searches of `g` with `cell` set to ascending values, concatenated,
    are sorted: every cell before `cell` is already set in `g`.
  */
  lemma {:induction false} BranchOrdered(g: Grid, cell: Cell, vs: seq<Digit>)
    requires IsGrid(g) && InRange(cell) && At(g, cell) == 0 && NoDups(vs)
    requires forall i, j :: 0 <= i < j < |vs| ==> vs[i] < vs[j]
    requires forall d :: InRange(d) && Before(d, cell) ==> At(g, d) != 0
    ensures LexSorted(Branch(g, cell, vs))
    decreases ZeroCount(g), 0, |vs|
  {
    if vs != [] {
      BranchUnfold(g, cell, vs);
      PlaceZeroCount(g, cell, vs[0]);
      var first := BruteForceSolutions(Place(g, cell, vs[0]));
      var rest := Branch(g, cell, vs[1..]);
      SearchOrdered(Place(g, cell, vs[0]));
      BranchOrdered(g, cell, vs[1..]);
      forall s, t | s in first && t in rest ensures LexLess(s, t) {
        CompletionsAgreeBefore(g, cell, s, t);
      }
      LexSortedAppend(first, rest);
    }
  }

  /**
    Two completions of `g` agree on the cells before `cell`, which are all
    set in `g`; so the one with the smaller value at `cell` comes first.
  */
  lemma CompletionsAgreeBefore(g: Grid, cell: Cell, s: Grid, t: Grid)
    requires IsGrid(g) && InRange(cell) && Completes(s, g) && Completes(t, g)
    requires forall d :: InRange(d) && Before(d, cell) ==> At(g, d) != 0
    requires At(s, cell) < At(t, cell)
    ensures LexLess(s, t)
  {
    assert LexLessAt(s, t, cell);
  }

  /** The first grid the search yields, or `None` when it yields nothing. */
  function BruteForceSolution(g: Grid): (r: Option<Grid>)
    requires IsGrid(g)
    ensures r.Some? ==> Completes(r.value, g)
    ensures r.None? <==> forall s :: !Completes(s, g)
    ensures r.Some? <==> BruteForceSolutions(g) != []
    ensures r.Some? ==> r.value == BruteForceSolutions(g)[0]
  {
    var all := BruteForceSolutions(g);
    FirstSolution(g);
    if all == [] then None else Some(all[0])
  }

  /** The grid the search returns is the lexicographically least completion. */
  lemma LeastCompletion(g: Grid)
    requires IsGrid(g)
    ensures BruteForceSolution(g).Some? ==>
      forall s :: Completes(s, g) && s != BruteForceSolution(g).value ==> LexLess(BruteForceSolution(g).value, s)
  {
    var all := BruteForceSolutions(g);
    if all != [] {
      SearchExact(g);
      SearchOrdered(g);
      forall s | Completes(s, g) && s != all[0] ensures LexLess(all[0], s) {
        var k :| 0 <= k < |all| && all[k] == s;
      }
    }
  }

  lemma FirstSolution(g: Grid)
    requires IsGrid(g)
    ensures BruteForceSolutions(g) != [] ==> Completes(BruteForceSolutions(g)[0], g)
    ensures BruteForceSolutions(g) == [] <==> forall s :: !Completes(s, g)
  {
    var all := BruteForceSolutions(g);
    SearchExact(g);
    if all != [] {
      assert all[0] in all;
    }
  }

  /**
    Whether the search yields exactly one grid; it is pulled for at most two
    results.
  */
  function HasUniqueSolution(g: Grid): (b: bool)
    requires IsGrid(g)
    ensures b <==> exists s :: OnlyCompletion(s, g)
  {
    UniqueIff(g);
    |Take(BruteForceSolutions(g), 2)| == 1
  }

  lemma UniqueIff(g: Grid)
    requires IsGrid(g)
    ensures |BruteForceSolutions(g)| == 1 <==> exists s :: OnlyCompletion(s, g)
  {
    SearchExact(g);
    var all := BruteForceSolutions(g);
    SingletonIff(all);
    if |all| == 1 {
      var s :| s in all && forall t :: t in all ==> t == s;
      forall t | Completes(t, g) ensures t == s {
        assert t in all;
      }
      assert Completes(s, g);
      assert OnlyCompletion(s, g);
    }
    if exists s :: OnlyCompletion(s, g) {
      var s :| OnlyCompletion(s, g);
      forall t | t in all ensures t == s {
        assert Completes(t, g);
      }
      assert s in all;
    }
  }

  /** A duplicate-free sequence has length 1 exactly when it holds one value and nothing else. */
  lemma SingletonIff<T>(xs: seq<T>)
    requires NoDups(xs)
    ensures |xs| == 1 <==> exists x :: x in xs && forall y :: y in xs ==> y == x
  {
    if |xs| == 1 {
      assert xs[0] in xs;
      forall y | y in xs ensures y == xs[0] {
        var i :| 0 <= i < |xs| && xs[i] == y;
      }
    }
    if exists x :: x in xs && forall y :: y in xs ==> y == x {
      var x :| x in xs && forall y :: y in xs ==> y == x;
      assert Elems(xs) == {x};
      CardElemsNoDups(xs);
    }
  }

  /** A solved grid is its own unique solution. */
  lemma SolvedHasUniqueSolution(g: Grid)
    requires IsGrid(g) && IsSolved(g)
    ensures HasUniqueSolution(g)
    ensures BruteForceSolution(g) == Some(g)
  {
    SolvedIff(g);
    forall t | Completes(t, g) ensures t == g {
      GridExt(t, g);
    }
    assert Completes(g, g);
  }

  /** An all-ones grid with one blank cell. */
  function OnesWithBlank(): (g: Grid)
    ensures IsGrid(g)
  {
    seq(9, r => seq(9, k => if r == 0 && k == 0 then 0 else 1))
  }

  /** The all-ones grid with one blank has no solution. */
  lemma OnesWithBlankUnsolvable()
    ensures BruteForceSolution(OnesWithBlank()) == None
    ensures !HasUniqueSolution(OnesWithBlank())
  {
    var g := OnesWithBlank();
    forall s ensures !Completes(s, g) {
      if IsGrid(s) && forall c :: InRange(c) && At(g, c) != 0 ==> At(s, c) == At(g, c) {
        SolvedIff(s);
        assert IsPeer(Cell(0, 1), Cell(0, 2));
        assert At(s, Cell(0, 1)) == 1 == At(s, Cell(0, 2));
      }
    }
  }
}
