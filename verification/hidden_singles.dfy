/**
  Hidden single by house index, the revision the solver calls: the cells
  scanned are those of `LegacyGrid.HouseCells(house)`.
*/
module HiddenSingles {
  import opened SeqUtil
  import opened CoreTypes
  import opened Board
  import opened Deduction
  import LegacyGrid
  import HiddenSingle

  /**
    The counter of the house: each digit listed by an unset cell of the
    house, mapped to how many unset cells of the house list it.
  */
  function CountCandidatesInHouse(g: Grid, cs: CandidateGrid, house: int): (counts: map<int, nat>)
    requires IsGrid(g) && IsCandidateGrid(cs) && 0 <= house < 27
    ensures forall d :: d in counts <==> |Holders(g, cs, LegacyGrid.HouseCells(house), d)| > 0
    ensures forall d :: d in counts ==> counts[d] == |Holders(g, cs, LegacyGrid.HouseCells(house), d)|
  {
    HiddenSingle.CandidateCounts(g, cs, LegacyGrid.HouseCells(house))
  }

  /**
    A cell of the house is reported with digit `d` exactly when it lists
    `d` among more than one candidate and the house counter holds 1 for `d`.
    Each is reported once.
  */
  function FindPlacements(g: Grid, cs: CandidateGrid, house: int): (ps: seq<Placement>)
    requires IsGrid(g) && IsCandidateGrid(cs) && 0 <= house < 27
    ensures forall p :: p in ps <==>
      p.cell in LegacyGrid.HouseCells(house) && p.digit in CandsAt(cs, p.cell) && |CandsAt(cs, p.cell)| > 1 &&
      p.digit in CountCandidatesInHouse(g, cs, house) && CountCandidatesInHouse(g, cs, house)[p.digit] == 1
    ensures NoDups(ps)
  {
    var cells := LegacyGrid.HouseCells(house);
    RowMajorNoDups(cells);
    HiddenSingle.FindPlacements(g, cs, cells)
  }

  /**
    The placements come cell by cell in row-major order and, within a
    cell, in the counter's key order of the singles.
  */
  lemma FindPlacementsOrdered(g: Grid, cs: CandidateGrid, house: int)
    requires IsGrid(g) && IsCandidateGrid(cs) && 0 <= house < 27
    ensures HiddenSingle.CellOrder(FindPlacements(g, cs, house), HiddenSingle.Singles(g, cs, LegacyGrid.HouseCells(house)))
  {
    var cells := LegacyGrid.HouseCells(house);
    RowMajorNoDups(cells);
    HiddenSingle.ListOrderRowMajor(FindPlacements(g, cs, house), cells, HiddenSingle.Singles(g, cs, cells));
  }

  /** In every completion the candidates keep, each reported cell takes its reported digit. */
  lemma FindPlacementsSound(g: Grid, cs: CandidateGrid, house: int, s: Grid, p: Placement)
    requires 0 <= house < 27 && Keeps(g, cs, s) && Bounded(g, cs) && Pruned(g, cs)
    requires p in FindPlacements(g, cs, house)
    ensures At(s, p.cell) == p.digit
  {
    HiddenSingle.FindPlacementsSound(g, cs, LegacyGrid.HouseCells(house), s, p);
  }
}
