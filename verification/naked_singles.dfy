/**
  Naked single by house index, the revision the solver calls: the cells
  scanned are those of `LegacyGrid.HouseCells(house)`.
*/
module NakedSingles {
  import opened CoreTypes
  import opened Board
  import opened Deduction
  import LegacyGrid
  import NakedSingle

  /**
    One placement per unset cell of the house with exactly one candidate,
    placing that candidate, in house order.
  */
  function FindPlacements(g: Grid, cs: CandidateGrid, house: int): (ps: seq<Placement>)
    requires IsGrid(g) && IsCandidateGrid(cs) && 0 <= house < 27
    ensures forall p :: p in ps <==>
      p.cell in LegacyGrid.HouseCells(house) && At(g, p.cell) == 0 && CandsAt(cs, p.cell) == {p.digit}
    ensures forall i, j :: 0 <= i < j < |ps| ==> Before(ps[i].cell, ps[j].cell)
  {
    NakedSingle.FindPlacements(g, cs, LegacyGrid.HouseCells(house))
  }

  /** In every completion the candidates keep, each reported cell takes its reported digit. */
  lemma FindPlacementsSound(g: Grid, cs: CandidateGrid, house: int, s: Grid, p: Placement)
    requires 0 <= house < 27 && Keeps(g, cs, s)
    requires p in FindPlacements(g, cs, house)
    ensures At(s, p.cell) == p.digit
  {
    NakedSingle.FindPlacementsSound(g, cs, LegacyGrid.HouseCells(house), s, p);
  }
}
