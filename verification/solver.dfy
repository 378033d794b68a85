/**
  The fixed-point solver. The grid is a 9x9 array updated in place; the
  candidates are a 9x9 array of digit sets built from it. `SetCell` writes
  a digit and removes it from the candidates of the cell's peers; `Solve`
  repeats passes over the listed houses (rows 0..8, then columns 1..8,
  then boxes 1..8), applying naked and then hidden singles to each, until
  a pass places nothing.

  Soundness is carried by `Sound`: relative to the input grid `g0`, the
  current grid keeps every given, the candidates are bounded and pruned,
  and every completion of `g0` is still kept by the candidates.
*/
module Solver {
  import opened SeqUtil
  import opened CoreTypes
  import opened Board
  import opened Locations
  import opened Peers
  import opened Validation
  import opened Deduction
  import LegacyGrid
  import NakedSingles
  import HiddenSingles

  /** The grid an array holds. */
  function GridOf(a: array2<int>): (g: Grid)
    reads a
    requires a.Length0 == 9 && a.Length1 == 9
    ensures |g| == 9 && forall r :: 0 <= r < 9 ==> |g[r]| == 9 && forall k :: 0 <= k < 9 ==> g[r][k] == a[r, k]
  {
    seq(9, r requires 0 <= r < 9 reads a => seq(9, k requires 0 <= k < 9 reads a => a[r, k]))
  }

  /** The candidate grid an array holds. */
  function CandsOf(a: array2<set<int>>): (cs: CandidateGrid)
    reads a
    requires a.Length0 == 9 && a.Length1 == 9
    ensures IsCandidateGrid(cs)
    ensures forall c :: InRange(c) ==> CandsAt(cs, c) == a[c.row, c.column]
  {
    seq(9, r requires 0 <= r < 9 reads a => seq(9, k requires 0 <= k < 9 reads a => a[r, k]))
  }

  /**
    The candidates after writing `digit` into `cell`: the cell lists just
    the digit, every peer loses it, and every other cell is untouched.
  */
  function Propagate(cs: CandidateGrid, cell: Cell, digit: int): (r: CandidateGrid)
    requires IsCandidateGrid(cs) && InRange(cell)
    ensures IsCandidateGrid(r)
    ensures CandsAt(r, cell) == {digit}
    ensures forall d :: IsPeer(cell, d) ==> digit !in CandsAt(r, d)
    ensures forall d :: IsPeer(cell, d) ==> CandsAt(r, d) == CandsAt(cs, d) - {digit}
    ensures forall d :: InRange(d) && d != cell && !IsPeer(cell, d) ==> CandsAt(r, d) == CandsAt(cs, d)
  {
    seq(9, i requires 0 <= i < 9 => seq(9, k requires 0 <= k < 9 =>
      if Cell(i, k) == cell then {digit}
      else if IsPeer(cell, Cell(i, k)) then cs[i][k] - {digit}
      else cs[i][k]))
  }

  /**
    Writes `digit` into `cell` and propagates it: the grid changes in that
    cell only, and the candidates become `Propagate` of the old ones.
  */
  method SetCell(grid: array2<int>, candidates: array2<set<int>>, cell: Cell, digit: int)
    requires grid.Length0 == 9 && grid.Length1 == 9 && candidates.Length0 == 9 && candidates.Length1 == 9
    requires IsGrid(GridOf(grid)) && InRange(cell) && 0 <= digit <= 9
    modifies grid, candidates
    ensures GridOf(grid) == Place(old(GridOf(grid)), cell, digit)
    ensures CandsOf(candidates) == Propagate(old(CandsOf(candidates)), cell, digit)
  {
    ghost var g0 := GridOf(grid);
    ghost var cs0 := CandsOf(candidates);
    grid[cell.row, cell.column] := digit;
    candidates[cell.row, cell.column] := {digit};
    PrunePeers(candidates, cell, digit);
    WrittenGrid(grid, g0, cell, digit);
    PropagatedArray(candidates, cs0, cell, digit);
  }

  /**
    The propagation loop of `SetCell`: removes `digit` from the candidates
    of every peer of `cell`, visiting the peers as a set in no particular
    order; every other cell keeps its candidates.
  */
  method PrunePeers(candidates: array2<set<int>>, cell: Cell, digit: int)
    requires candidates.Length0 == 9 && candidates.Length1 == 9 && InRange(cell)
    modifies candidates
    ensures forall c :: InRange(c) ==>
      candidates[c.row, c.column] == (
        if IsPeer(cell, c) then old(candidates[c.row, c.column]) - {digit}
        else old(candidates[c.row, c.column]))
  {
    var peers := LegacyGrid.PeerCells(cell.row, cell.column);
    assert Cell(cell.row, cell.column) == cell;
    var todo := peers;
    while todo != {}
      invariant todo <= peers
      invariant forall c :: InRange(c) ==>
        candidates[c.row, c.column] == (
          if IsPeer(cell, c) && c !in todo then old(candidates[c.row, c.column]) - {digit}
          else old(candidates[c.row, c.column]))
      decreases todo
    {
      var p :| p in todo;
      assert IsPeer(cell, p);
      var before := candidates[p.row, p.column];
      label Head:
      if digit in before {
        candidates[p.row, p.column] := before - {digit};
      } else {
        assert before - {digit} == before;
      }
      todo := todo - {p};
      forall c | InRange(c)
        ensures candidates[c.row, c.column] == (
          if IsPeer(cell, c) && c !in todo then old(candidates[c.row, c.column]) - {digit}
          else old(candidates[c.row, c.column]))
      {
        if c != p {
          assert candidates[c.row, c.column] == old@Head(candidates[c.row, c.column]);
        }
      }
    }
  }

  /** An array that differs from `g0` only by `digit` at `cell` holds `Place(g0, cell, digit)`. */
  lemma WrittenGrid(grid: array2<int>, g0: Grid, cell: Cell, digit: int)
    requires grid.Length0 == 9 && grid.Length1 == 9
    requires IsGrid(g0) && InRange(cell) && 0 <= digit <= 9
    requires forall r, k :: 0 <= r < 9 && 0 <= k < 9 ==>
      grid[r, k] == if r == cell.row && k == cell.column then digit else g0[r][k]
    ensures GridOf(grid) == Place(g0, cell, digit)
  {
    GridExt(GridOf(grid), Place(g0, cell, digit));
  }

  /** An array holding `digit` at `cell` and the pruned peers of `cs0` holds `Propagate(cs0, cell, digit)`. */
  lemma PropagatedArray(candidates: array2<set<int>>, cs0: CandidateGrid, cell: Cell, digit: int)
    requires candidates.Length0 == 9 && candidates.Length1 == 9
    requires IsCandidateGrid(cs0) && InRange(cell)
    requires forall c :: InRange(c) ==>
      candidates[c.row, c.column] == (
        if c == cell then {digit}
        else if IsPeer(cell, c) then CandsAt(cs0, c) - {digit}
        else CandsAt(cs0, c))
    ensures CandsOf(candidates) == Propagate(cs0, cell, digit)
  {
    CandidateGridExt(CandsOf(candidates), Propagate(cs0, cell, digit));
  }

  /** Placing `p` is justified: it writes a digit into a cell the input left unset, as every completion of the input does. */
  ghost predicate Forced(g0: Grid, p: Placement) {
    IsGrid(g0) && InRange(p.cell) && 1 <= p.digit <= 9 && At(g0, p.cell) == 0 &&
    forall s :: Completes(s, g0) ==> At(s, p.cell) == p.digit
  }

  /**
    The solver's invariant relative to the input `g0`: the givens of `g0`
    are still in place, the candidates are bounded and pruned, and they keep
    every completion of `g0`.
  */
  ghost predicate Sound(g0: Grid, g: Grid, cs: CandidateGrid) {
    IsGrid(g0) && IsGrid(g) && IsCandidateGrid(cs) && Bounded(g, cs) && Pruned(g, cs) &&
    (forall c :: InRange(c) && At(g0, c) != 0 ==> At(g, c) == At(g0, c)) &&
    (forall s :: Completes(s, g0) ==> Keeps(g, cs, s))
  }

  /** Under the invariant the grid has exactly the completions of the input. */
  lemma SoundCompletions(g0: Grid, g: Grid, cs: CandidateGrid)
    requires Sound(g0, g, cs)
    ensures forall s :: Completes(s, g0) <==> Completes(s, g)
  {
    forall s | Completes(s, g) ensures Completes(s, g0) {
      forall c | InRange(c) && At(g0, c) != 0 ensures At(s, c) == At(g0, c) {
        assert At(g, c) == At(g0, c);
      }
    }
  }

  /** The candidate grid of the input starts the invariant. */
  lemma SoundStart(g0: Grid)
    requires IsGrid(g0)
    ensures Sound(g0, g0, LegacyGrid.CreateCandidateGrid(g0))
  {
    LegacyGrid.CandidateGridInvariants(g0);
  }

  /** A forced placement keeps the candidates bounded. */
  lemma PlaceBounded(g: Grid, cs: CandidateGrid, p: Placement)
    requires IsGrid(g) && IsCandidateGrid(cs) && Bounded(g, cs)
    requires InRange(p.cell) && 1 <= p.digit <= 9
    ensures Bounded(Place(g, p.cell, p.digit), Propagate(cs, p.cell, p.digit))
  {
    var g', cs' := Place(g, p.cell, p.digit), Propagate(cs, p.cell, p.digit);
    forall c | InRange(c) ensures CandsAt(cs', c) <= OneToNine && (At(g', c) != 0 ==> CandsAt(cs', c) <= {At(g', c)}) {
      if c != p.cell {
        assert CandsAt(cs', c) <= CandsAt(cs, c);
      }
    }
  }

  /** Writing a digit and removing it from the peers keeps the candidates pruned. */
  lemma PlacePruned(g: Grid, cs: CandidateGrid, p: Placement)
    requires IsGrid(g) && IsCandidateGrid(cs) && Pruned(g, cs)
    requires InRange(p.cell) && 1 <= p.digit <= 9
    ensures Pruned(Place(g, p.cell, p.digit), Propagate(cs, p.cell, p.digit))
  {
    var g', cs' := Place(g, p.cell, p.digit), Propagate(cs, p.cell, p.digit);
    forall c, d | IsPeer(c, d) && At(g', c) == 0 && At(g', d) != 0 ensures At(g', d) !in CandsAt(cs', c) {
      assert c != p.cell;
      assert CandsAt(cs', c) <= CandsAt(cs, c);
      if d == p.cell {
        PeerSymmetric(c, d);
      }
    }
  }

  /** A placement every completion agrees with keeps every completion kept. */
  lemma PlaceKeeps(g0: Grid, g: Grid, cs: CandidateGrid, p: Placement, s: Grid)
    requires Keeps(g, cs, s) && Forced(g0, p) && Completes(s, g0)
    ensures Keeps(Place(g, p.cell, p.digit), Propagate(cs, p.cell, p.digit), s)
  {
    var g', cs' := Place(g, p.cell, p.digit), Propagate(cs, p.cell, p.digit);
    forall c | InRange(c) && At(g', c) == 0 ensures At(s, c) in CandsAt(cs', c) {
      if IsPeer(p.cell, c) {
        SolvedPeersDiffer(s, p.cell, c);
      }
    }
  }

  /** A forced placement preserves the invariant. */
  lemma PlaceSound(g0: Grid, g: Grid, cs: CandidateGrid, p: Placement)
    requires Sound(g0, g, cs) && Forced(g0, p)
    ensures Sound(g0, Place(g, p.cell, p.digit), Propagate(cs, p.cell, p.digit))
  {
    PlaceBounded(g, cs, p);
    PlacePruned(g, cs, p);
    forall s | Completes(s, g0) ensures Keeps(Place(g, p.cell, p.digit), Propagate(cs, p.cell, p.digit), s) {
      PlaceKeeps(g0, g, cs, p, s);
    }
  }

  /** Every placement of `ps` names a cell of the grid and a digit. */
  predicate Placeable(ps: seq<Placement>) {
    forall i :: 0 <= i < |ps| ==> InRange(ps[i].cell) && 1 <= ps[i].digit <= 9
  }

  /** Every placement of `ps` is forced relative to `g0`. */
  ghost predicate AllForced(g0: Grid, ps: seq<Placement>) {
    forall i :: 0 <= i < |ps| ==> Forced(g0, ps[i])
  }

  /** The grid after applying `ps` in order. */
  function PlaceAll(g: Grid, ps: seq<Placement>): (r: Grid)
    requires IsGrid(g) && Placeable(ps)
    ensures IsGrid(r)
    ensures forall c :: InRange(c) && (forall p :: p in ps ==> p.cell != c) ==> At(r, c) == At(g, c)
    ensures ZeroCount(r) <= ZeroCount(g)
    decreases |ps|
  {
    if ps == [] then g
    else
      var last := ps[|ps| - 1];
      var front := ps[..|ps| - 1];
      assert forall p :: p in front ==> p in ps;
      PlaceZeroCount(PlaceAll(g, front), last.cell, last.digit);
      Place(PlaceAll(g, front), last.cell, last.digit)
  }

  /** The candidates after applying `ps` in order. */
  function PropagateAll(cs: CandidateGrid, ps: seq<Placement>): (r: CandidateGrid)
    requires IsCandidateGrid(cs) && Placeable(ps)
    ensures IsCandidateGrid(r)
    decreases |ps|
  {
    if ps == [] then cs
    else
      var last := ps[|ps| - 1];
      Propagate(PropagateAll(cs, ps[..|ps| - 1]), last.cell, last.digit)
  }

  /** Applying one more placement of `ps` is one more `Place` and one more `Propagate`. */
  lemma ApplyStep(g: Grid, cs: CandidateGrid, ps: seq<Placement>, i: int)
    requires IsGrid(g) && IsCandidateGrid(cs) && Placeable(ps) && 0 <= i < |ps|
    ensures Placeable(ps[..i]) && Placeable(ps[..i + 1])
    ensures PlaceAll(g, ps[..i + 1]) == Place(PlaceAll(g, ps[..i]), ps[i].cell, ps[i].digit)
    ensures PropagateAll(cs, ps[..i + 1]) == Propagate(PropagateAll(cs, ps[..i]), ps[i].cell, ps[i].digit)
  {
    assert ps[..i + 1][..i] == ps[..i];
  }

  /** The naked singles of a house at a sound state are forced placements on unset cells. */
  lemma NakedForced(g0: Grid, g: Grid, cs: CandidateGrid, house: int, p: Placement)
    requires Sound(g0, g, cs) && 0 <= house < 27
    requires p in NakedSingles.FindPlacements(g, cs, house)
    ensures Forced(g0, p) && At(g, p.cell) == 0
  {
    var cells := LegacyGrid.HouseCells(house);
    var i :| 0 <= i < |cells| && cells[i] == p.cell;
    assert InRange(p.cell);
    assert p.digit in CandsAt(cs, p.cell) && CandsAt(cs, p.cell) <= OneToNine;
    forall s | Completes(s, g0) ensures At(s, p.cell) == p.digit {
      NakedSingles.FindPlacementsSound(g, cs, house, s, p);
    }
  }

  /** Under `Bounded`, a set cell lists at most one candidate. */
  lemma SetCellCandidates(g: Grid, cs: CandidateGrid, c: Cell)
    requires IsGrid(g) && IsCandidateGrid(cs) && Bounded(g, cs) && InRange(c) && At(g, c) != 0
    ensures |CandsAt(cs, c)| <= 1
  {
    var a := At(g, c);
    if a in CandsAt(cs, c) {
      assert CandsAt(cs, c) == {a};
    } else {
      assert CandsAt(cs, c) == {};
    }
  }

  /** The hidden singles of a house at a sound state are forced placements on unset cells. */
  lemma HiddenForced(g0: Grid, g: Grid, cs: CandidateGrid, house: int, p: Placement)
    requires Sound(g0, g, cs) && 0 <= house < 27
    requires p in HiddenSingles.FindPlacements(g, cs, house)
    ensures Forced(g0, p) && At(g, p.cell) == 0
  {
    var cells := LegacyGrid.HouseCells(house);
    var i :| 0 <= i < |cells| && cells[i] == p.cell;
    assert InRange(p.cell);
    assert p.digit in CandsAt(cs, p.cell) && CandsAt(cs, p.cell) <= OneToNine;
    if At(g, p.cell) != 0 {
      SetCellCandidates(g, cs, p.cell);
    }
    forall s | Completes(s, g0) ensures At(s, p.cell) == p.digit {
      HiddenSingles.FindPlacementsSound(g, cs, house, s, p);
    }
  }

  /** Neither finder reports anything in `house`. */
  predicate Stuck(g: Grid, cs: CandidateGrid, house: int)
    requires IsGrid(g) && IsCandidateGrid(cs) && 0 <= house < 27
  {
    NakedSingles.FindPlacements(g, cs, house) == [] && HiddenSingles.FindPlacements(g, cs, house) == []
  }

  /** The grid and the candidates the solver works on, as values. */
  datatype State = State(grid: Grid, cands: CandidateGrid)

  /** The state the arrays hold. */
  function Current(grid: array2<int>, candidates: array2<set<int>>): State
    reads grid, candidates
    requires grid.Length0 == 9 && grid.Length1 == 9 && candidates.Length0 == 9 && candidates.Length1 == 9
  {
    State(GridOf(grid), CandsOf(candidates))
  }

  /** A state the finders and the placements can run on: well formed, with bounded candidates. */
  ghost predicate Ready(s: State) {
    IsGrid(s.grid) && IsCandidateGrid(s.cands) && Bounded(s.grid, s.cands)
  }

  /** Placing `ps` in order keeps the candidates bounded. */
  lemma {:induction false} ApplyAllBounded(g: Grid, cs: CandidateGrid, ps: seq<Placement>)
    requires IsGrid(g) && IsCandidateGrid(cs) && Bounded(g, cs) && Placeable(ps)
    ensures Bounded(PlaceAll(g, ps), PropagateAll(cs, ps))
    decreases |ps|
  {
    if ps != [] {
      var last := ps[|ps| - 1];
      ApplyAllBounded(g, cs, ps[..|ps| - 1]);
      PlaceBounded(PlaceAll(g, ps[..|ps| - 1]), PropagateAll(cs, ps[..|ps| - 1]), last);
    }
  }

  /** When the first placement of `ps` lands on an unset cell, placing `ps` fills at least one cell. */
  lemma {:induction false} ApplyAllFills(g: Grid, ps: seq<Placement>)
    requires IsGrid(g) && Placeable(ps)
    ensures ps != [] && At(g, ps[0].cell) == 0 ==> ZeroCount(PlaceAll(g, ps)) < ZeroCount(g)
    decreases |ps|
  {
    if ps != [] && At(g, ps[0].cell) == 0 {
      var front, last := ps[..|ps| - 1], ps[|ps| - 1];
      PlaceZeroCount(PlaceAll(g, front), last.cell, last.digit);
      if front != [] {
        assert front[0] == ps[0];
        ApplyAllFills(g, front);
      }
    }
  }

  /**
    The state after `SetCell` for each placement of `ps` in order. The
    candidates stay bounded, the unset cells never grow in number, and they
    shrink when the first placement lands on an unset cell.
  */
  function ApplyAll(s: State, ps: seq<Placement>): (r: State)
    requires Ready(s) && Placeable(ps)
    ensures Ready(r)
    ensures ZeroCount(r.grid) <= ZeroCount(s.grid)
    ensures ps != [] && At(s.grid, ps[0].cell) == 0 ==> ZeroCount(r.grid) < ZeroCount(s.grid)
  {
    ApplyAllBounded(s.grid, s.cands, ps);
    ApplyAllFills(s.grid, ps);
    State(PlaceAll(s.grid, ps), PropagateAll(s.cands, ps))
  }

  /** On a state with bounded candidates, every single either finder reports is a digit for an unset cell. */
  lemma FoundUnset(s: State, house: int, p: Placement)
    requires Ready(s) && 0 <= house < 27
    requires p in NakedSingles.FindPlacements(s.grid, s.cands, house) || p in HiddenSingles.FindPlacements(s.grid, s.cands, house)
    ensures InRange(p.cell) && 1 <= p.digit <= 9 && At(s.grid, p.cell) == 0
  {
    var cells := LegacyGrid.HouseCells(house);
    var i :| 0 <= i < |cells| && cells[i] == p.cell;
    assert InRange(p.cell);
    assert p.digit in CandsAt(s.cands, p.cell) && CandsAt(s.cands, p.cell) <= OneToNine;
    if p !in NakedSingles.FindPlacements(s.grid, s.cands, house) && At(s.grid, p.cell) != 0 {
      SetCellCandidates(s.grid, s.cands, p.cell);
    }
  }

  /** The naked singles' list can be applied, and each of its singles lands on an unset cell. */
  lemma NakedPlaceable(s: State, house: int)
    requires Ready(s) && 0 <= house < 27
    ensures Placeable(NakedSingles.FindPlacements(s.grid, s.cands, house))
    ensures forall p :: p in NakedSingles.FindPlacements(s.grid, s.cands, house) ==> At(s.grid, p.cell) == 0
  {
    var naked := NakedSingles.FindPlacements(s.grid, s.cands, house);
    forall p | p in naked ensures InRange(p.cell) && 1 <= p.digit <= 9 && At(s.grid, p.cell) == 0 {
      FoundUnset(s, house, p);
    }
  }

  /** The hidden singles' list can be applied, and each of its singles lands on an unset cell. */
  lemma HiddenPlaceable(s: State, house: int)
    requires Ready(s) && 0 <= house < 27
    ensures Placeable(HiddenSingles.FindPlacements(s.grid, s.cands, house))
    ensures forall p :: p in HiddenSingles.FindPlacements(s.grid, s.cands, house) ==> At(s.grid, p.cell) == 0
  {
    var hidden := HiddenSingles.FindPlacements(s.grid, s.cands, house);
    forall p | p in hidden ensures InRange(p.cell) && 1 <= p.digit <= 9 && At(s.grid, p.cell) == 0 {
      FoundUnset(s, house, p);
    }
  }

  /**
    One house of a pass, as a function of the state: the naked singles of
    the house are placed in order, then the hidden singles found on the
    updated state. A stuck house changes nothing; any other house fills at
    least one unset cell.
  */
  function HouseStep(s: State, house: int): (r: State)
    requires Ready(s) && 0 <= house < 27
    ensures Ready(r)
    ensures ZeroCount(r.grid) <= ZeroCount(s.grid)
    ensures Stuck(s.grid, s.cands, house) ==> r == s
    ensures !Stuck(s.grid, s.cands, house) ==> ZeroCount(r.grid) < ZeroCount(s.grid)
  {
    NakedPlaceable(s, house);
    HiddenPlaceable(s, house);
    var mid := ApplyAll(s, NakedSingles.FindPlacements(s.grid, s.cands, house));
    HiddenPlaceable(mid, house);
    ApplyAll(mid, HiddenSingles.FindPlacements(mid.grid, mid.cands, house))
  }

  /** Every entry of the list is a house id. */
  predicate HouseList(houses: seq<int>) {
    forall i :: 0 <= i < |houses| ==> 0 <= houses[i] < 27
  }

  /** The row, column and box lists of a pass are lists of house ids. */
  lemma PassHouseLists()
    ensures HouseList(RowHouseIds()) && HouseList(ColumnHouseIds()) && HouseList(BoxHouseIds())
  {
    assert forall i :: 0 <= i < |RowHouseIds()| ==> RowHouseIds()[i] in RowHouseIds();
    assert forall i :: 0 <= i < |ColumnHouseIds()| ==> ColumnHouseIds()[i] in ColumnHouseIds();
    assert forall i :: 0 <= i < |BoxHouseIds()| ==> BoxHouseIds()[i] in BoxHouseIds();
  }

  /**
    The `for` loops of a pass, as a function of the state: `HouseStep` for
    each house of `houses[from..]` in order.
  */
  function Scan(s: State, houses: seq<int>, from: nat): (r: State)
    requires Ready(s) && HouseList(houses) && from <= |houses|
    ensures Ready(r)
    ensures ZeroCount(r.grid) <= ZeroCount(s.grid)
    decreases |houses| - from
  {
    if from == |houses| then s else Scan(HouseStep(s, houses[from]), houses, from + 1)
  }

  /** A scan that fills no cell finds its first house stuck, and the rest of it fills no cell either. */
  lemma ScanUnchangedHead(s: State, houses: seq<int>, from: nat)
    requires Ready(s) && HouseList(houses) && from < |houses|
    requires ZeroCount(Scan(s, houses, from).grid) == ZeroCount(s.grid)
    ensures Stuck(s.grid, s.cands, houses[from])
    ensures Scan(s, houses, from + 1) == Scan(s, houses, from)
  {
    var next := HouseStep(s, houses[from]);
    assert ZeroCount(Scan(next, houses, from + 1).grid) <= ZeroCount(next.grid);
  }

  /** A scan that fills no cell found every house it visited stuck. */
  lemma {:induction false} ScanStuck(s: State, houses: seq<int>, from: nat)
    requires Ready(s) && HouseList(houses) && from <= |houses|
    requires ZeroCount(Scan(s, houses, from).grid) == ZeroCount(s.grid)
    ensures forall i :: from <= i < |houses| ==> Stuck(s.grid, s.cands, houses[i])
    decreases |houses| - from
  {
    if from < |houses| {
      ScanUnchangedHead(s, houses, from);
      ScanStuck(s, houses, from + 1);
      forall i | from <= i < |houses| ensures Stuck(s.grid, s.cands, houses[i]) {
        if i == from {
          assert Stuck(s.grid, s.cands, houses[from]);
        }
      }
    }
  }

  /** A scan over houses that are all stuck changes nothing at all. */
  lemma {:induction false} ScanIdle(s: State, houses: seq<int>, from: nat)
    requires Ready(s) && HouseList(houses) && from <= |houses|
    requires forall i :: from <= i < |houses| ==> Stuck(s.grid, s.cands, houses[i])
    ensures Scan(s, houses, from) == s
    decreases |houses| - from
  {
    if from < |houses| {
      assert HouseStep(s, houses[from]) == s;
      ScanIdle(s, houses, from + 1);
    }
  }

  /** The house ids one pass visits, in order: rows 0..8, then columns 10..17, then boxes 19..26. */
  function PassHouses(): (ids: seq<int>)
    ensures HouseList(ids)
    ensures forall h :: h in ids <==> 0 <= h < 27 && h != 9 && h != 18
  {
    PassHouseLists();
    HouseIdLists();
    HouseListAppend(RowHouseIds(), ColumnHouseIds());
    HouseListAppend(RowHouseIds() + ColumnHouseIds(), BoxHouseIds());
    RowHouseIds() + ColumnHouseIds() + BoxHouseIds()
  }

  /** Two lists of house ids joined are a list of house ids. */
  lemma HouseListAppend(a: seq<int>, b: seq<int>)
    requires HouseList(a) && HouseList(b)
    ensures HouseList(a + b)
  {
    forall k | 0 <= k < |a + b| ensures 0 <= (a + b)[k] < 27 {
      if k >= |a| {
        assert (a + b)[k] == b[k - |a|];
      }
    }
  }

  /** A whole pass of `Solve`: one scan over the rows, the listed columns and the listed boxes. */
  function Pass(s: State): (r: State)
    requires Ready(s)
    ensures Ready(r)
    ensures ZeroCount(r.grid) <= ZeroCount(s.grid)
  {
    Scan(s, PassHouses(), 0)
  }

  /**
    A pass that fills no cell changes nothing, and it found every house id
    but 9 and 18 stuck.
  */
  lemma StuckPass(s: State)
    requires Ready(s) && ZeroCount(Pass(s).grid) == ZeroCount(s.grid)
    ensures Pass(s) == s
    ensures forall h :: 0 <= h < 27 && h != 9 && h != 18 ==> Stuck(s.grid, s.cands, h)
  {
    var ids := PassHouses();
    ScanStuck(s, ids, 0);
    ScanIdle(s, ids, 0);
    StuckListed(s.grid, s.cands, ids);
  }

  /** When every house of the pass list is stuck, every house id but 9 and 18 is. */
  lemma StuckListed(g: Grid, cs: CandidateGrid, ids: seq<int>)
    requires IsGrid(g) && IsCandidateGrid(cs) && HouseList(ids)
    requires forall h :: h in ids <==> 0 <= h < 27 && h != 9 && h != 18
    requires forall i :: 0 <= i < |ids| ==> Stuck(g, cs, ids[i])
    ensures forall h :: 0 <= h < 27 && h != 9 && h != 18 ==> Stuck(g, cs, h)
  {
    forall h | 0 <= h < 27 && h != 9 && h != 18 ensures Stuck(g, cs, h) {
      assert h in ids;
      var i :| 0 <= i < |ids| && ids[i] == h;
    }
  }

  /**
    What `Solve` computes from a state: passes until one fills no cell,
    which is exactly a pass in which neither finder reports anything.
  */
  function SolveFrom(s: State): (r: State)
    requires Ready(s)
    ensures Ready(r) && ZeroCount(Pass(r).grid) == ZeroCount(r.grid)
    ensures ZeroCount(r.grid) <= ZeroCount(s.grid)
    decreases ZeroCount(s.grid)
  {
    var next := Pass(s);
    if ZeroCount(next.grid) == ZeroCount(s.grid) then s else SolveFrom(next)
  }

  /**
    Where `SolveFrom` stops, a further pass changes nothing, and no house
    but 9 and 18 has a naked or hidden single left.
  */
  lemma SolveFromStops(s: State)
    requires Ready(s)
    ensures Pass(SolveFrom(s)) == SolveFrom(s)
    ensures forall h :: 0 <= h < 27 && h != 9 && h != 18 ==> Stuck(SolveFrom(s).grid, SolveFrom(s).cands, h)
  {
    StuckPass(SolveFrom(s));
  }

  /** Applying forced placements in order keeps the state sound. */
  lemma {:induction false} ApplyAllSound(g0: Grid, s: State, ps: seq<Placement>)
    requires Sound(g0, s.grid, s.cands) && AllForced(g0, ps)
    ensures Placeable(ps) && Sound(g0, ApplyAll(s, ps).grid, ApplyAll(s, ps).cands)
    decreases |ps|
  {
    assert Placeable(ps);
    if ps != [] {
      var front, last := ps[..|ps| - 1], ps[|ps| - 1];
      assert AllForced(g0, front);
      ApplyAllSound(g0, s, front);
      PlaceSound(g0, PlaceAll(s.grid, front), PropagateAll(s.cands, front), last);
    }
  }

  /** One house step from a sound state is sound. */
  lemma HouseStepSound(g0: Grid, s: State, house: int)
    requires Sound(g0, s.grid, s.cands) && 0 <= house < 27
    ensures Sound(g0, HouseStep(s, house).grid, HouseStep(s, house).cands)
  {
    var naked := NakedSingles.FindPlacements(s.grid, s.cands, house);
    forall i | 0 <= i < |naked| ensures Forced(g0, naked[i]) {
      NakedForced(g0, s.grid, s.cands, house, naked[i]);
    }
    ApplyAllSound(g0, s, naked);
    var mid := ApplyAll(s, naked);
    var hidden := HiddenSingles.FindPlacements(mid.grid, mid.cands, house);
    forall i | 0 <= i < |hidden| ensures Forced(g0, hidden[i]) {
      HiddenForced(g0, mid.grid, mid.cands, house, hidden[i]);
    }
    ApplyAllSound(g0, mid, hidden);
  }

  /** A scan from a sound state is sound. */
  lemma {:induction false} ScanSound(g0: Grid, s: State, houses: seq<int>, from: nat)
    requires Sound(g0, s.grid, s.cands) && HouseList(houses) && from <= |houses|
    ensures Sound(g0, Scan(s, houses, from).grid, Scan(s, houses, from).cands)
    decreases |houses| - from
  {
    if from < |houses| {
      HouseStepSound(g0, s, houses[from]);
      ScanSound(g0, HouseStep(s, houses[from]), houses, from + 1);
    }
  }

  /** A pass from a sound state is sound. */
  lemma PassSound(g0: Grid, s: State)
    requires Sound(g0, s.grid, s.cands)
    ensures Sound(g0, Pass(s).grid, Pass(s).cands)
  {
    ScanSound(g0, s, PassHouses(), 0);
  }

  /**
    Solving from a sound state ends in a sound state: the givens of `g0`
    are kept and the result has exactly the completions of `g0`.
  */
  lemma {:induction false} SolveFromSound(g0: Grid, s: State)
    requires Sound(g0, s.grid, s.cands)
    ensures Sound(g0, SolveFrom(s).grid, SolveFrom(s).cands)
    ensures forall t :: Completes(t, g0) <==> Completes(t, SolveFrom(s).grid)
    decreases ZeroCount(s.grid)
  {
    PassSound(g0, s);
    if ZeroCount(Pass(s).grid) != ZeroCount(s.grid) {
      SolveFromSound(g0, Pass(s));
    }
    SoundCompletions(g0, SolveFrom(s).grid, SolveFrom(s).cands);
  }

  /**
    The `for` loop over one finder's list: `SetCell` for each placement in
    order. The new state is the placements applied in order; when the first
    one lands on an unset cell, the grid has fewer unset cells.
  */
  method ApplyPlacements(grid: array2<int>, candidates: array2<set<int>>, ps: seq<Placement>, ghost g0: Grid)
    requires grid.Length0 == 9 && grid.Length1 == 9 && candidates.Length0 == 9 && candidates.Length1 == 9
    requires Sound(g0, GridOf(grid), CandsOf(candidates)) && AllForced(g0, ps)
    modifies grid, candidates
    ensures Placeable(ps)
    ensures GridOf(grid) == PlaceAll(old(GridOf(grid)), ps)
    ensures CandsOf(candidates) == PropagateAll(old(CandsOf(candidates)), ps)
    ensures Sound(g0, GridOf(grid), CandsOf(candidates))
    ensures ZeroCount(GridOf(grid)) <= ZeroCount(old(GridOf(grid)))
    ensures ps != [] && At(old(GridOf(grid)), ps[0].cell) == 0 ==> ZeroCount(GridOf(grid)) < ZeroCount(old(GridOf(grid)))
  {
    ghost var g, cs := GridOf(grid), CandsOf(candidates);
    assert Placeable(ps);
    for i := 0 to |ps|
      invariant Placeable(ps[..i])
      invariant GridOf(grid) == PlaceAll(g, ps[..i])
      invariant CandsOf(candidates) == PropagateAll(cs, ps[..i])
      invariant Sound(g0, GridOf(grid), CandsOf(candidates))
      invariant ZeroCount(GridOf(grid)) <= ZeroCount(g)
      invariant i > 0 && At(g, ps[0].cell) == 0 ==> ZeroCount(GridOf(grid)) < ZeroCount(g)
    {
      var p := ps[i];
      ApplyStep(g, cs, ps, i);
      ghost var gi, csi := GridOf(grid), CandsOf(candidates);
      PlaceSound(g0, gi, csi, p);
      PlaceZeroCount(gi, p.cell, p.digit);
      SetCell(grid, candidates, p.cell, p.digit);
    }
    assert ps[..|ps|] == ps;
  }

  /**
    One house of a pass: the naked singles of the house are applied, then
    the hidden singles found on the updated state. The new state is
    `HouseStep` of the old one, and progress is reported exactly when either
    finder returned something on the state the house started from.
  */
  method ApplyHouse(grid: array2<int>, candidates: array2<set<int>>, house: int, ghost g0: Grid) returns (progress: bool)
    requires grid.Length0 == 9 && grid.Length1 == 9 && candidates.Length0 == 9 && candidates.Length1 == 9
    requires Sound(g0, GridOf(grid), CandsOf(candidates)) && 0 <= house < 27
    modifies grid, candidates
    ensures Current(grid, candidates) == HouseStep(old(Current(grid, candidates)), house)
    ensures Sound(g0, GridOf(grid), CandsOf(candidates))
    ensures progress <==> !Stuck(old(GridOf(grid)), old(CandsOf(candidates)), house)
  {
    progress := false;
    ghost var g1, cs1 := GridOf(grid), CandsOf(candidates);
    var naked := NakedSingles.FindPlacements(GridOf(grid), CandsOf(candidates), house);
    forall i | 0 <= i < |naked| ensures Forced(g0, naked[i]) {
      NakedForced(g0, g1, cs1, house, naked[i]);
    }
    if naked != [] {
      progress := true;
    }
    ApplyPlacements(grid, candidates, naked, g0);
    ghost var g2, cs2 := GridOf(grid), CandsOf(candidates);
    var hidden := HiddenSingles.FindPlacements(GridOf(grid), CandsOf(candidates), house);
    forall i | 0 <= i < |hidden| ensures Forced(g0, hidden[i]) {
      HiddenForced(g0, g2, cs2, house, hidden[i]);
    }
    if hidden != [] {
      progress := true;
    }
    ApplyPlacements(grid, candidates, hidden, g0);
  }

  /**
    The `for` loops of a pass, over a list of house ids. The new state is
    `Scan` of the old one, and progress is reported exactly when some house
    had a single, which is exactly when the scan filled at least one cell.
  */
  method ScanHouses(grid: array2<int>, candidates: array2<set<int>>, houses: seq<int>, ghost g0: Grid) returns (progress: bool)
    requires grid.Length0 == 9 && grid.Length1 == 9 && candidates.Length0 == 9 && candidates.Length1 == 9
    requires Sound(g0, GridOf(grid), CandsOf(candidates))
    requires HouseList(houses)
    modifies grid, candidates
    ensures Current(grid, candidates) == Scan(old(Current(grid, candidates)), houses, 0)
    ensures Sound(g0, GridOf(grid), CandsOf(candidates))
    ensures progress <==> ZeroCount(GridOf(grid)) < ZeroCount(old(GridOf(grid)))
  {
    progress := false;
    ghost var s := Current(grid, candidates);
    for i := 0 to |houses|
      invariant Sound(g0, GridOf(grid), CandsOf(candidates))
      invariant Scan(Current(grid, candidates), houses, i) == Scan(s, houses, 0)
      invariant ZeroCount(GridOf(grid)) <= ZeroCount(s.grid)
      invariant progress <==> ZeroCount(GridOf(grid)) < ZeroCount(s.grid)
    {
      var found := ApplyHouse(grid, candidates, houses[i], g0);
      progress := progress || found;
    }
  }

  /**
    The solver: passes over rows 0..8, column ids 10..17 and box ids
    19..26 until a pass makes no progress. The grid is updated in place and
    returned, holding what `SolveFrom` computes from the input and its
    candidate grid; it keeps the givens and has exactly the completions of
    the input, and at the end the candidates `cands` are sound and no
    listed house has a naked or hidden single left.
  */
  method Solve(grid: array2<int>) returns (result: array2<int>, ghost cands: CandidateGrid)
    requires grid.Length0 == 9 && grid.Length1 == 9 && IsGrid(GridOf(grid))
    modifies grid
    ensures result == grid
    ensures State(GridOf(grid), cands) == SolveFrom(State(old(GridOf(grid)), LegacyGrid.CreateCandidateGrid(old(GridOf(grid)))))
    ensures Sound(old(GridOf(grid)), GridOf(grid), cands)
    ensures forall s :: Completes(s, old(GridOf(grid))) <==> Completes(s, GridOf(grid))
    ensures forall h :: 0 <= h < 27 && h != 9 && h != 18 ==> Stuck(GridOf(grid), cands, h)
  {
    ghost var g0 := GridOf(grid);
    var start := LegacyGrid.CreateCandidateGrid(GridOf(grid));
    var candidates := new set<int>[9, 9]((r, k) requires 0 <= r < 9 && 0 <= k < 9 => start[r][k]);
    CandidateGridExt(CandsOf(candidates), start);
    SoundStart(g0);
    ghost var target := SolveFrom(State(g0, start));
    var progress := true;
    while progress
      invariant Sound(g0, GridOf(grid), CandsOf(candidates))
      invariant SolveFrom(Current(grid, candidates)) == target
      invariant !progress ==> Current(grid, candidates) == target
      decreases ZeroCount(GridOf(grid)) + (if progress then 1 else 0)
    {
      ghost var before := Current(grid, candidates);
      progress := ScanHouses(grid, candidates, PassHouses(), g0);
      if !progress {
        StuckPass(before);
      }
    }
    SolveFromStops(State(g0, start));
    SoundCompletions(g0, GridOf(grid), CandsOf(candidates));
    result, cands := grid, CandsOf(candidates);
  }

  /**
    When the input has a completion and the solver leaves no cell unset,
    the result is that completion, and it is the only one.
  */
  lemma FilledResultIsSolution(g0: Grid, g: Grid, cs: CandidateGrid, s: Grid)
    requires Sound(g0, g, cs) && Filled(g) && Completes(s, g0)
    ensures Completes(g, g0) && IsSolved(g)
    ensures forall t :: Completes(t, g0) ==> t == g
  {
    SoundCompletions(g0, g, cs);
    forall t | Completes(t, g0) ensures t == g {
      GridExt(t, g);
    }
  }
}
