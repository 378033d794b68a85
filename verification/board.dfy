/**
  The placed-value grid and the candidate grid as values. A grid is a 9x9
  array of digits where 0 means "unset"; a candidate grid holds one set of
  digits per cell. Copy-and-update (`np.copy` followed by an assignment) is
  `Place`.
*/
module Board {
  import opened SeqUtil
  import opened CoreTypes

  /** The digits 1..9, `set(range(1, 10))`. */
  const OneToNine: set<int> := set v | 1 <= v <= 9

  type Grid = seq<seq<int>>

  predicate IsGrid(g: Grid) {
    |g| == 9 && forall r :: 0 <= r < 9 ==> |g[r]| == 9 && forall c :: 0 <= c < 9 ==> 0 <= g[r][c] <= 9
  }

  function At(g: Grid, c: Cell): int
    requires IsGrid(g) && InRange(c)
  {
    g[c.row][c.column]
  }

  /** A copy of `g` with cell `c` set to `v`. */
  function Place(g: Grid, c: Cell, v: int): (r: Grid)
    requires IsGrid(g) && InRange(c) && 0 <= v <= 9
    ensures IsGrid(r)
    ensures At(r, c) == v
    ensures forall d :: InRange(d) && d != c ==> At(r, d) == At(g, d)
  {
    g[c.row := g[c.row][c.column := v]]
  }

  /** Two grids with the same value in every cell are the same grid. */
  lemma GridExt(g: Grid, h: Grid)
    requires IsGrid(g) && IsGrid(h)
    requires forall c :: InRange(c) ==> At(g, c) == At(h, c)
    ensures g == h
  {
    forall r | 0 <= r < 9 ensures g[r] == h[r] {
      forall k | 0 <= k < 9 ensures g[r][k] == h[r][k] {
        assert At(g, Cell(r, k)) == At(h, Cell(r, k));
      }
    }
  }

  /** The values of the given cells, in list order. */
  function Values(g: Grid, cells: seq<Cell>): (vs: seq<int>)
    requires IsGrid(g) && AllInRange(cells)
    ensures |vs| == |cells|
    ensures forall i :: 0 <= i < |cells| ==> vs[i] == At(g, cells[i])
  {
    seq(|cells|, i requires 0 <= i < |cells| => At(g, cells[i]))
  }

  /** The set of values of the given cells, `set(grid[list(zip(*cells))])`. */
  function ValueSet(g: Grid, cells: seq<Cell>): set<int>
    requires IsGrid(g) && AllInRange(cells)
  {
    Elems(Values(g, cells))
  }

  /** The non-zero values of the given cells: the digits placed there. */
  function PlacedDigits(g: Grid, cells: seq<Cell>): (ds: set<int>)
    requires IsGrid(g) && AllInRange(cells)
    ensures ds <= OneToNine
    ensures forall v :: v in ds <==> v != 0 && exists c :: c in cells && At(g, c) == v
  {
    var ds := ValueSet(g, cells) - {0};
    forall v ensures v in ds <==> v != 0 && exists c :: c in cells && At(g, c) == v {
      ValueSetMember(g, cells, v);
    }
    forall v | v in ds ensures v in OneToNine {
      var c :| c in cells && At(g, c) == v;
    }
    ds
  }

  lemma ValueSetMember(g: Grid, cells: seq<Cell>, x: int)
    requires IsGrid(g) && AllInRange(cells)
    ensures x in ValueSet(g, cells) <==> exists c :: c in cells && At(g, c) == x
  {
    if x in ValueSet(g, cells) {
      var i :| 0 <= i < |cells| && Values(g, cells)[i] == x;
      assert cells[i] in cells;
    }
    if exists c :: c in cells && At(g, c) == x {
      var c :| c in cells && At(g, c) == x;
      var i :| 0 <= i < |cells| && cells[i] == c;
      assert Values(g, cells)[i] == x;
    }
  }

  type CandidateGrid = seq<seq<set<int>>>

  predicate IsCandidateGrid(cs: CandidateGrid) {
    |cs| == 9 && forall r :: 0 <= r < 9 ==> |cs[r]| == 9
  }

  function CandsAt(cs: CandidateGrid, c: Cell): set<int>
    requires IsCandidateGrid(cs) && InRange(c)
  {
    cs[c.row][c.column]
  }

  /** Two candidate grids with the same candidates in every cell are the same grid. */
  lemma CandidateGridExt(a: CandidateGrid, b: CandidateGrid)
    requires IsCandidateGrid(a) && IsCandidateGrid(b)
    requires forall c :: InRange(c) ==> CandsAt(a, c) == CandsAt(b, c)
    ensures a == b
  {
    forall r | 0 <= r < 9 ensures a[r] == b[r] {
      forall k | 0 <= k < 9 ensures a[r][k] == b[r][k] {
        assert CandsAt(a, Cell(r, k)) == CandsAt(b, Cell(r, k));
      }
    }
  }

  /** The 81 cells, row-major: the order in which `np.where` reports them. */
  function AllCells(): (cells: seq<Cell>)
    ensures |cells| == 81
    ensures forall c :: c in cells <==> InRange(c)
    ensures RowMajor(cells)
  {
    var cells := seq(81, k => Cell(k / 9, k % 9));
    forall c | InRange(c) ensures c in cells {
      assert cells[c.row * 9 + c.column] == c;
    }
    cells
  }

  /** Number of cells of the list holding 0. */
  function ZerosIn(g: Grid, cells: seq<Cell>): (n: nat)
    requires IsGrid(g) && AllInRange(cells)
    ensures n <= |cells|
  {
    if cells == [] then 0 else (if At(g, cells[0]) == 0 then 1 else 0) + ZerosIn(g, cells[1..])
  }

  /** Number of zero (unset) cells of the grid. */
  function ZeroCount(g: Grid): nat
    requires IsGrid(g)
  {
    ZerosIn(g, AllCells())
  }

  lemma {:induction false} PlaceZerosIn(g: Grid, c: Cell, v: int, cells: seq<Cell>)
    requires IsGrid(g) && InRange(c) && 1 <= v <= 9 && AllInRange(cells)
    ensures ZerosIn(Place(g, c, v), cells) <= ZerosIn(g, cells)
    ensures At(g, c) == 0 && c in cells ==> ZerosIn(Place(g, c, v), cells) < ZerosIn(g, cells)
    decreases |cells|
  {
    if cells != [] {
      assert c in cells ==> c == cells[0] || c in cells[1..];
      PlaceZerosIn(g, c, v, cells[1..]);
    }
  }

  /**
    Writing a digit never adds a zero cell, and writing it into a zero cell
    removes one: the measure under which the search and the solver loop
    terminate.
  */
  lemma PlaceZeroCount(g: Grid, c: Cell, v: int)
    requires IsGrid(g) && InRange(c) && 1 <= v <= 9
    ensures ZeroCount(Place(g, c, v)) <= ZeroCount(g)
    ensures At(g, c) == 0 ==> ZeroCount(Place(g, c, v)) < ZeroCount(g)
  {
    PlaceZerosIn(g, c, v, AllCells());
  }
}
